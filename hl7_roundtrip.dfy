/**
 * `toString(parse(raw))` gives back `raw`, one return character added, for
 * the messages whose segments `parse` can keep apart: the round trip the
 * dictionary form is built for.
 */
module Hl7RoundTrip {
  import opened Wrappers
  import opened Text
  import opened Hl7Model
  import opened Hl7Parse
  import opened Hl7Serialize

  /** The separators `toString` reads back are the ones `parse` split on. */
  predicate SameSeps(s: Seps, d: Delims) {
    AllSeps(d) && s.fld == d.fld && s.com == d.com && s.rep == d.rep && s.sub == d.sub
  }

  // ---------------------------------------------------------------------
  // Fields
  // ---------------------------------------------------------------------

  lemma {:induction false} PickAt<V>(ks: seq<nat>, m: map<nat, V>)
    requires forall k :: k in ks ==> k in m
    ensures forall i :: 0 <= i < |ks| ==> Pick(ks, m)[i] == m[ks[i]]
  {
    if ks != [] {
      var n := |ks| - 1;
      assert forall k :: k in ks[..n] ==> k in ks;
      PickAt(ks[..n], m);
      forall i | 0 <= i < n
        ensures Pick(ks, m)[i] == m[ks[i]]
      {
        assert ks[..n][i] == ks[i];
      }
    }
  }

  /** A dictionary keyed `1..n` lists its entries in key order. */
  lemma InOrderRange<V>(m: map<nat, V>, n: nat)
    requires forall k :: k in m <==> 1 <= k <= n
    ensures |InOrder(m)| == n
    ensures forall i :: 0 <= i < n ==> InOrder(m)[i] == m[i + 1]
  {
    var ks := SortedKeys(m.Keys);
    SortedKeysRange(m.Keys, n);
    SortedKeysOrdered(m.Keys);
    PickAt(ks, m);
    assert InOrder(m) == Pick(ks, m);
  }

  lemma {:induction false} ComponentTextsAt(cs: seq<Component>, sub: string)
    ensures forall i :: 0 <= i < |cs| ==> ComponentTexts(cs, sub)[i] == ComponentText(cs[i], sub)
  {
    if cs != [] {
      var n := |cs| - 1;
      ComponentTextsAt(cs[..n], sub);
      forall i | 0 <= i < n
        ensures ComponentTexts(cs, sub)[i] == ComponentText(cs[i], sub)
      {
        assert cs[..n][i] == cs[i];
      }
    }
  }

  lemma {:induction false} ValueTextsAt(vs: seq<Value>, s: Seps)
    ensures forall i :: 0 <= i < |vs| ==> ValueTexts(vs, s)[i] == ValueText(vs[i], s)
  {
    if vs != [] {
      var n := |vs| - 1;
      ValueTextsAt(vs[..n], s);
      forall i | 0 <= i < n
        ensures ValueTexts(vs, s)[i] == ValueText(vs[i], s)
      {
        assert vs[..n][i] == vs[i];
      }
    }
  }

  /** A subcomponent dictionary is written back as the component it was cut
      from. */
  lemma SubsRoundTrip(c: string, sub: Sep)
    requires sub != []
    ensures SubsText(Indexed(Split(c, sub[0])), sub) == c
  {
    var parts := Split(c, sub[0]);
    assert InOrder(Indexed(parts)) == parts by {
      IndexedParts(parts);
      InOrderRange(Indexed(parts), |parts|);
    }
    assert Join(parts, sub) == c by {
      assert sub == [sub[0]];
      JoinSplit(c, sub[0]);
    }
  }

  lemma ComponentRoundTrip(c: string, sub: Sep, x: Component)
    requires ParseComponent(c, sub) == Success(x)
    ensures ComponentText(x, sub) == c
  {
    if x.Subs? {
      SubsRoundTrip(c, sub);
    }
  }

  lemma ComponentTextsParts(parts: seq<string>, sub: Sep, cs: map<nat, Component>)
    requires sub != []
    requires ParseComponents(parts, sub) == Success(cs)
    ensures ComponentTexts(InOrder(cs), sub) == parts
  {
    ComponentsPointwise(parts, sub);
    InOrderRange(cs, |parts|);
    ComponentTextsAt(InOrder(cs), sub);
    forall i | 0 <= i < |parts|
      ensures ComponentTexts(InOrder(cs), sub)[i] == parts[i]
    {
      ComponentRoundTrip(parts[i], sub, cs[i + 1]);
    }
  }

  /** A component dictionary is written back as the text it was cut
      from. */
  lemma ComponentsRoundTrip(p: string, com: Sep, sub: Sep, cs: map<nat, Component>)
    requires com != [] && sub != []
    requires ParseComponents(Split(p, com[0]), sub) == Success(cs)
    ensures Join(ComponentTexts(InOrder(cs), sub), com) == p
  {
    var parts := Split(p, com[0]);
    ComponentTextsParts(parts, sub, cs);
    assert com == [com[0]];
    JoinSplit(p, com[0]);
  }

  lemma RepetitionRoundTrip(p: string, d: Delims, s: Seps, v: Value)
    requires SameSeps(s, d)
    requires ParseRepetition(p, d) == Success(v)
    ensures ValueText(v, s) == p
  {
    if v.Comps? {
      ComponentsRoundTrip(p, d.com, d.sub, v.comps);
    }
  }

  /** Every field `parse` builds is written back as the text it was parsed
      from. */
  lemma FieldRoundTrip(t: string, msh2: bool, d: Delims, s: Seps, f: Field)
    requires SameSeps(s, d)
    requires ParseField(t, msh2, d) == Success(f)
    ensures FieldText(f, s) == t
  {
    if msh2 {
    } else if Has(t, d.rep) {
      assert d.rep == [d.rep[0]];
      RepsRoundTrip(t, d.rep[0], d, s, f.reps);
    } else if Has(t, d.com) {
      ComponentsRoundTrip(t, d.com, d.sub, f.value.comps);
    } else if Has(t, d.sub) {
      SubFieldRoundTrip(t, d, s);
    }
  }

  lemma RepsRoundTrip(t: string, c: char, d: Delims, s: Seps, vs: seq<Value>)
    requires SameSeps(s, d) && d.rep == [c]
    requires ParseRepetitions(Split(t, c), d) == Success(vs)
    ensures Join(ValueTexts(vs, s), [c]) == t
  {
    RepTextsParts(Split(t, c), d, s, vs);
    JoinSplit(t, c);
  }

  lemma RepTextsParts(pieces: seq<string>, d: Delims, s: Seps, vs: seq<Value>)
    requires SameSeps(s, d)
    requires ParseRepetitions(pieces, d) == Success(vs)
    ensures ValueTexts(vs, s) == pieces
  {
    RepetitionsPointwise(pieces, d);
    ValueTextsAt(vs, s);
    forall i | 0 <= i < |pieces|
      ensures ValueTexts(vs, s)[i] == pieces[i]
    {
      RepetitionRoundTrip(pieces[i], d, s, vs[i]);
    }
  }

  lemma SubFieldRoundTrip(t: string, d: Delims, s: Seps)
    requires SameSeps(s, d)
    ensures FieldText(One(Comps(map[1 := Subs(Indexed(Split(t, d.sub[0])))])), s) == t
  {
    var x := Subs(Indexed(Split(t, d.sub[0])));
    InOrderRange(map[1 := x], 1);
    assert InOrder(map[1 := x]) == [x];
    assert ComponentTexts([x], s.sub) == [ComponentText(x, s.sub)];
    SubsRoundTrip(t, d.sub);
  }

  /** ... and rendering it does not fail when the segment name fits the key
      pattern. */
  lemma RenderRoundTrip(t: string, msh2: bool, d: Delims, s: Seps, f: Field, name: string)
    requires SameSeps(s, d) && NameMatches(name)
    requires ParseField(t, msh2, d) == Success(f)
    ensures RenderFieldSpec(f, name, s) == Some(t)
  {
    FieldRoundTrip(t, msh2, d, s, f);
  }

  // ---------------------------------------------------------------------
  // Segments
  // ---------------------------------------------------------------------

  /** The field texts of a segment line: what follows the separator after
      its name, cut at the field separator. */
  function Texts(l: string, fld: char): seq<string> {
    Split(SegmentBody(l), fld)
  }

  /** A segment line the round trip keeps: a three-character name the key
      pattern accepts, the field separator after it, and no field text that
      starts like one of the segment's own key names. */
  predicate SegmentOk(l: string, fld: char) {
    && |l| >= 4 && l[3] == fld
    && NameMatches(SegmentName(l))
    && NoKeyText(SegmentName(l), Texts(l, fld))
  }

  /** Each text written after the separator, in order. */
  function Prefixed(texts: seq<string>, sep: string): string {
    if texts == [] then ""
    else Prefixed(texts[..|texts| - 1], sep) + sep + texts[|texts| - 1]
  }

  lemma {:induction false} PrefixedJoin(texts: seq<string>, sep: string)
    requires texts != []
    ensures Prefixed(texts, sep) == sep + Join(texts, sep)
  {
    var n := |texts| - 1;
    if n > 0 {
      PrefixedJoin(texts[..n], sep);
      JoinSnoc(texts[..n], texts[n], sep);
      assert texts[..n] + [texts[n]] == texts;
    }
  }

  /** The fields of one parsed segment, written under keys `first ..
      first + k - 1`, give back its first `k` field texts. */
  lemma {:induction false} SegmentTextParts(fields: Fields, name: string, texts: seq<string>, d: Delims, s: Seps, k: nat)
    requires SameSeps(s, d) && NameMatches(name)
    requires FieldsOk(name, texts, d, fields)
    requires k <= |texts|
    ensures SegmentText(fields, Range(FirstField(name), k), name, s) == Some(Prefixed(texts[..k], s.fld))
  {
    var first := FirstField(name);
    if k == 0 {
      assert Range(first, 0) == [];
    } else {
      SegmentTextParts(fields, name, texts, d, s, k - 1);
      assert Range(first, k)[..k - 1] == Range(first, k - 1);
      assert ParseField(texts[k - 1], name == "MSH" && k - 1 == 0, d) == Success(fields[first + k - 1]);
      RenderRoundTrip(texts[k - 1], name == "MSH" && k - 1 == 0, d, s, fields[first + k - 1], name);
      assert texts[..k][..k - 1] == texts[..k - 1];
    }
  }

  /** The fields of a segment line `parse` accepts are written back, in
      order, as the text after its name. */
  lemma BodyRoundTrip(l: string, d: Delims, s: Seps)
    requires SameSeps(s, d) && SegmentOk(l, d.fld[0])
    ensures var sp := ParseSegment(l, d).value;
      SegmentText(sp.fields, sp.keys, SegmentName(l), s) == Some(s.fld + SegmentBody(l))
  {
    var name := SegmentName(l);
    var c := d.fld[0];
    var texts := Texts(l, c);
    SegmentParts(l, d, c);
    KeysInOrder(name, texts);
    TextsRoundTrip(name, texts, d, s);
    assert s.fld == [c];
    PrefixedBody(l, c);
  }

  /** A segment parses into the fields of its texts and their keys. */
  lemma SegmentParts(l: string, d: Delims, c: char)
    requires AllSeps(d) && d.fld == [c]
    ensures ParseFields(SegmentName(l), Texts(l, c), d).Success?
    ensures ParseSegment(l, d)
         == Success(SegParse(ParseFields(SegmentName(l), Texts(l, c), d).value,
                             KeysOf(SegmentName(l), Texts(l, c))))
  {
  }

  /** The fields `parse` builds from a segment's texts are written back as
      those texts, each after the separator. */
  lemma TextsRoundTrip(name: string, texts: seq<string>, d: Delims, s: Seps)
    requires SameSeps(s, d) && NameMatches(name)
    requires ParseFields(name, texts, d).Success?
    ensures SegmentText(ParseFields(name, texts, d).value, Range(FirstField(name), |texts|), name, s)
         == Some(Prefixed(texts, s.fld))
  {
    FieldsOfSegment(name, texts, d);
    SegmentTextParts(ParseFields(name, texts, d).value, name, texts, d, s, |texts|);
    assert texts[..|texts|] == texts;
  }

  lemma PrefixedBody(l: string, c: char)
    ensures Prefixed(Texts(l, c), [c]) == [c] + SegmentBody(l)
  {
    PrefixedJoin(Texts(l, c), [c]);
    JoinSplit(SegmentBody(l), c);
  }

  lemma LineTextOf(e: SegEntry, i: nat, line: Line, s: Seps, body: string)
    requires |line.name| == 3 && line.keys != []
    requires e.Repeated? ==> i < |e.occs|
    requires SegmentText(Occurrence(e, i), line.keys, line.name, s) == Some(body)
    ensures LineText(e, i, line, s) == Some(line.name + body + "\r")
  {
    assert Head(line) == line.name;
  }

  /** A segment line `parse` accepts is written back by `toString` as
      itself, followed by a return character. */
  lemma LineRoundTrip(l: string, d: Delims, s: Seps, e: SegEntry, i: nat)
    requires SameSeps(s, d) && SegmentOk(l, d.fld[0])
    requires Occurrence(e, i) == ParseSegment(l, d).value.fields
    requires e.Repeated? ==> i < |e.occs|
    ensures LineText(e, i, Line(SegmentName(l), ParseSegment(l, d).value.keys), s) == Some(l + "\r")
  {
    BodyRoundTrip(l, d, s);
    var line := Line(SegmentName(l), ParseSegment(l, d).value.keys);
    KeysNonEmpty(l, d);
    LineTextOf(e, i, line, s, s.fld + SegmentBody(l));
    LineParts(l, s.fld);
  }

  lemma LineParts(l: string, f: string)
    requires |l| >= 4 && f == [l[3]]
    ensures SegmentName(l) + (f + SegmentBody(l)) + "\r" == l + "\r"
  {
    assert l == l[..3] + [l[3]] + l[4..];
  }

  // ---------------------------------------------------------------------
  // Messages
  // ---------------------------------------------------------------------

  /** Each line followed by a return character. */
  function Rendered(lines: seq<string>): string {
    if lines == [] then ""
    else Rendered(lines[..|lines| - 1]) + lines[|lines| - 1] + "\r"
  }

  lemma {:induction false} RenderedJoin(lines: seq<string>)
    requires lines != []
    ensures Rendered(lines) == Join(lines, "\r") + "\r"
  {
    var n := |lines| - 1;
    if n > 0 {
      RenderedJoin(lines[..n]);
      JoinSnoc(lines[..n], lines[n], "\r");
      assert lines[..n] + [lines[n]] == lines;
    }
  }

  /** The segment lines `parse` cuts `raw` into. */
  function LinesOf(raw: string): seq<string> {
    Split(Replace(raw, '\n', '\r'), '\r')
  }

  /** A message the round trip holds for: it starts with an MSH header
      whose five encoding characters are on its first line and differ from
      the field separator, every line is a segment `SegmentOk` accepts, and
      only the first line is an MSH segment. */
  predicate WellFormed(raw: string) {
    && |raw| >= 8 && raw[..3] == "MSH"
    && (forall i :: 3 <= i < 8 ==> raw[i] != '\r' && raw[i] != '\n')
    && (forall i :: 4 <= i < 8 ==> raw[i] != raw[3])
    && (forall j :: 0 <= j < |LinesOf(raw)| ==> SegmentOk(LinesOf(raw)[j], raw[3]))
    && (forall j :: 1 <= j < |LinesOf(raw)| ==> SegmentName(LinesOf(raw)[j]) != "MSH")
  }

  /** Segments of the same name have the same number of fields. */
  predicate SameFieldCounts(raw: string)
    requires |raw| >= 4
  {
    forall i, k ::
      (0 <= i < |LinesOf(raw)| && 0 <= k < |LinesOf(raw)| &&
       SegmentName(LinesOf(raw)[i]) == SegmentName(LinesOf(raw)[k])) ==>
        |Texts(LinesOf(raw)[i], raw[3])| == |Texts(LinesOf(raw)[k], raw[3])|
  }

  /** The first line starts with the header's first eight characters. */
  lemma MshFirstLine(raw: string)
    requires WellFormed(raw)
    ensures |LinesOf(raw)[0]| >= 8 && LinesOf(raw)[0][..8] == raw[..8]
  {
    var text := Replace(raw, '\n', '\r');
    assert forall i :: 0 <= i < 3 ==> raw[i] == raw[..3][i];
    forall i | 0 <= i < 8 ensures text[i] == raw[i] && text[i] != '\r' {
    }
    SplitFirst(text, '\r', 8);
    assert text[..8] == raw[..8];
  }

  lemma {:induction false} NamesAt(segments: seq<string>, j: nat)
    requires j < |segments| && SegmentName(segments[j]) != ""
    ensures SegmentName(segments[j]) in Names(segments)
  {
    var pre := segments[..|segments| - 1];
    if j < |segments| - 1 {
      NamesAt(pre, j);
      assert pre[j] == segments[j];
    }
  }

  lemma {:induction false} NamedOnlyFirst(segments: seq<string>, fs: seq<Fields>, n: string)
    requires |segments| >= 1 && |fs| == |segments|
    requires n != "" && SegmentName(segments[0]) == n
    requires forall j :: 1 <= j < |segments| ==> SegmentName(segments[j]) != n
    ensures Named(segments, fs, n) == [fs[0]]
  {
    if |segments| > 1 {
      var pre := segments[..|segments| - 1];
      forall j | 1 <= j < |pre| ensures SegmentName(pre[j]) != n {
        assert pre[j] == segments[j];
      }
      NamedOnlyFirst(pre, fs[..|fs| - 1], n);
    } else {
      assert segments[..0] == [] && fs[..0] == [];
    }
  }

  /** What `parse` has built from a well-formed message, gathered once. */
  ghost predicate Facts(raw: string, m: Message, s: Seps, d: Delims, lines: seq<string>, fs: seq<Fields>) {
    && |raw| >= 8 && d == DelimsOf(raw) && lines == LinesOf(raw)
    && ParseSpec(raw) == Success(m) && SepsOf(m) == Some(s)
    && WalkFacts(m, s, d, lines, fs)
  }

  /** The part of `Facts` the walk over the structure needs. */
  ghost predicate WalkFacts(m: Message, s: Seps, d: Delims, lines: seq<string>, fs: seq<Fields>) {
    && AllSeps(d) && SameSeps(s, d) && fs == Parsed(lines, d)
    && (forall j :: 0 <= j < |lines| ==> SegmentOk(lines[j], d.fld[0]))
    && StructureFacts(m.structure, d, lines)
    && EntryFacts(m.segs, lines, fs)
  }

  /** One structure line per segment line, holding its name and keys. */
  ghost predicate StructureFacts(structure: seq<Line>, d: Delims, lines: seq<string>)
    requires AllSeps(d)
  {
    && |structure| == |lines|
    && (forall j :: 0 <= j < |lines| ==>
          structure[j] == Line(SegmentName(lines[j]), ParseSegment(lines[j], d).value.keys))
  }

  /** Every segment line has an entry, holding the occurrences of its name. */
  ghost predicate EntryFacts(segs: map<string, SegEntry>, lines: seq<string>, fs: seq<Fields>)
    requires |fs| == |lines|
  {
    && (forall j :: 0 <= j < |lines| ==> SegmentName(lines[j]) in segs)
    && (forall n :: n in segs ==>
          && Occs(segs[n]) == Named(lines, fs, n)
          && (segs[n].Repeated? <==> |Named(lines, fs, n)| > 1))
  }

  /** The fields of the MSH line: MSH-1 is the field separator and
      MSH-2 the encoding characters that follow it. */
  lemma MshFields(raw: string, l: string) returns (e: string)
    requires |raw| >= 8 && (forall i :: 4 <= i < 8 ==> raw[i] != raw[3])
    requires |l| >= 8 && l[..8] == raw[..8] && SegmentName(l) == "MSH"
    ensures var fields := SegmentFields(l, DelimsOf(raw));
      && 1 in fields && fields[1] == One(Text([raw[3]]))
      && 2 in fields && fields[2] == One(Text(e))
      && |e| >= 4 && e[0] == raw[4] && e[1] == raw[5] && e[3] == raw[7]
  {
    var d := DelimsOf(raw);
    var texts := Texts(l, raw[3]);
    e := texts[0];
    assert |e| >= 4 && e[0] == raw[4] && e[1] == raw[5] && e[3] == raw[7] by {
      forall i | 0 <= i < 4 ensures SegmentBody(l)[i] == raw[4 + i] {
        assert l[..8][4 + i] == raw[..8][4 + i];
      }
      SplitFirst(SegmentBody(l), raw[3], 4);
    }
    assert SegmentFields(l, d) == ParseFields("MSH", texts, d).value;
    FieldsOfSegment("MSH", texts, d);
  }

  lemma SepsOfMsh(m: Message, fields: Fields, c: char, e: string)
    requires "MSH" in m.segs && m.segs["MSH"] == Single(fields)
    requires 1 in fields && fields[1] == One(Text([c]))
    requires 2 in fields && fields[2] == One(Text(e)) && |e| >= 4
    ensures SepsOf(m) == Some(Seps([c], [e[0]], [e[1]], [e[3]]))
  {
    assert Slice(e, 0, 1) == [e[0]] && Slice(e, 1, 2) == [e[1]] && Slice(e, 3, 4) == [e[3]];
  }

  /** `toString` reads back the separators `parse` split on. */
  lemma MshSeps(raw: string, m: Message, lines: seq<string>, fs: seq<Fields>)
    requires |raw| >= 8 && (forall i :: 4 <= i < 8 ==> raw[i] != raw[3])
    requires |lines| >= 1 && |lines[0]| >= 8 && lines[0][..8] == raw[..8] && raw[..3] == "MSH"
    requires forall j :: 1 <= j < |lines| ==> SegmentName(lines[j]) != "MSH"
    requires fs == Parsed(lines, DelimsOf(raw))
    requires "MSH" in m.segs && Occs(m.segs["MSH"]) == Named(lines, fs, "MSH")
    requires m.segs["MSH"].Repeated? <==> |Named(lines, fs, "MSH")| > 1
    ensures SepsOf(m) == Some(Seps([raw[3]], [raw[4]], [raw[5]], [raw[7]]))
  {
    var d := DelimsOf(raw);
    MshName(raw, lines[0]);
    MshEntry(m, lines, fs, d);
    var e := MshFields(raw, lines[0]);
    SepsOfMsh(m, SegmentFields(lines[0], d), raw[3], e);
  }

  lemma MshName(raw: string, l: string)
    requires |raw| >= 8 && |l| >= 8 && l[..8] == raw[..8] && raw[..3] == "MSH"
    ensures SegmentName(l) == "MSH"
  {
    assert l[..3] == raw[..8][..3];
  }

  /** The MSH entry holds the fields of the first line alone. */
  lemma MshEntry(m: Message, lines: seq<string>, fs: seq<Fields>, d: Delims)
    requires |lines| >= 1 && SegmentName(lines[0]) == "MSH"
    requires forall j :: 1 <= j < |lines| ==> SegmentName(lines[j]) != "MSH"
    requires fs == Parsed(lines, d)
    requires "MSH" in m.segs && Occs(m.segs["MSH"]) == Named(lines, fs, "MSH")
    requires m.segs["MSH"].Repeated? <==> |Named(lines, fs, "MSH")| > 1
    ensures m.segs["MSH"] == Single(SegmentFields(lines[0], d))
  {
    NamedOnlyFirst(lines, fs, "MSH");
    ParsedAt(lines, d, 0);
  }

  lemma EntriesOf(lines: seq<string>, d: Delims, st: PState)
    requires AllSeps(d) && ParseSegments(lines, d) == Success(st)
    requires forall j :: 0 <= j < |lines| ==> SegmentName(lines[j]) != ""
    ensures EntryFacts(st.segs, lines, Parsed(lines, d))
  {
    SegmentFolding(lines, d);
    forall j | 0 <= j < |lines| ensures SegmentName(lines[j]) in st.segs {
      NamesAt(lines, j);
    }
  }

  lemma LinesOk(raw: string)
    requires WellFormed(raw)
    ensures forall j :: 0 <= j < |LinesOf(raw)| ==>
      SegmentOk(LinesOf(raw)[j], DelimsOf(raw).fld[0]) && SegmentName(LinesOf(raw)[j]) != ""
    ensures SegmentName(LinesOf(raw)[0]) == "MSH"
    ensures |LinesOf(raw)[0]| >= 8 && LinesOf(raw)[0][..8] == raw[..8]
  {
    MshFirstLine(raw);
    assert LinesOf(raw)[0][..3] == raw[..8][..3];
  }

  lemma ParseSpecIs(raw: string, st: PState)
    requires raw != "" && ParseSegments(LinesOf(raw), DelimsOf(raw)) == Success(st)
    ensures ParseSpec(raw) == Success(Message(Stored(st.segs), st.structure, Replace(raw, '\n', '\r'), st.segList, ""))
  {
  }

  /** A message without a segment named `raw` keeps every entry. */
  lemma StoredAll(lines: seq<string>, d: Delims, st: PState)
    requires ParseSegments(lines, d) == Success(st)
    requires forall j :: 0 <= j < |lines| ==> SegmentName(lines[j]) != "raw"
    ensures Stored(st.segs) == st.segs
  {
    NamesFolding(lines, d);
    NameAbsent(lines, "raw");
  }

  /** Gathers `Facts` for a well-formed message. */
  lemma EstablishFacts(raw: string) returns (m: Message, s: Seps, d: Delims, lines: seq<string>, fs: seq<Fields>)
    requires WellFormed(raw)
    ensures Facts(raw, m, s, d, lines, fs)
  {
    d := DelimsOf(raw);
    lines := LinesOf(raw);
    fs := Parsed(lines, d);
    LinesOk(raw);
    var st := ParseSegments(lines, d).value;
    ParseSpecIs(raw, st);
    forall j | 0 <= j < |lines|
      ensures SegmentName(lines[j]) != "raw"
    {
      NameMatchesPlain(SegmentName(lines[j]));
    }
    StoredAll(lines, d, st);
    m := Message(st.segs, st.structure, Replace(raw, '\n', '\r'), st.segList, "");
    s := Seps([raw[3]], [raw[4]], [raw[5]], [raw[7]]);
    StructureOf(lines, d);
    EntriesOf(lines, d, st);
    MshSeps(raw, m, lines, fs);
  }

  // ---------------------------------------------------------------------
  // The walk over the structure
  // ---------------------------------------------------------------------

  /** Lines of the same name share one `seg_dict` counter. */
  predicate Uniform(tally: Tally, structure: seq<Line>) {
    forall i, k ::
      (0 <= i < |structure| && 0 <= k < |structure| && structure[i].name == structure[k].name) ==>
        TallyKey(tally, structure[i]) == TallyKey(tally, structure[k])
  }

  /** After the first `j` lines, the counter of every list entry holds the
      index of the last occurrence written, and is absent before the first. */
  ghost predicate Counted(structure: seq<Line>, segs: map<string, SegEntry>, tally: Tally,
                          lines: seq<string>, fs: seq<Fields>, j: nat, seen: map<Line, nat>)
    requires |fs| == |lines| && j <= |lines|
  {
    forall i :: 0 <= i < |structure| && structure[i].name in segs && segs[structure[i].name].Repeated? ==>
      var key := TallyKey(tally, structure[i]);
      var c := |Named(lines[..j], fs[..j], structure[i].name)|;
      (key in seen <==> c > 0) && (key in seen ==> seen[key] == c - 1)
  }

  lemma CountedStep(structure: seq<Line>, segs: map<string, SegEntry>, tally: Tally,
                    lines: seq<string>, fs: seq<Fields>, j: nat, seen: map<Line, nat>)
    requires |fs| == |lines| && j < |lines| && |structure| == |lines|
    requires forall i :: 0 <= i < |lines| ==> structure[i].name == SegmentName(lines[i])
    requires SegmentName(lines[j]) != ""
    requires Uniform(tally, structure)
    requires Counted(structure, segs, tally, lines, fs, j, seen)
    ensures var n := SegmentName(lines[j]);
      Counted(structure, segs, tally, lines, fs, j + 1,
              if n in segs && segs[n].Repeated?
              then seen[TallyKey(tally, structure[j]) := |Named(lines[..j], fs[..j], n)|]
              else seen)
  {
    var n := SegmentName(lines[j]);
    forall i | 0 <= i < |structure| {
      NamedStep(lines, fs, j, structure[i].name);
    }
  }

  lemma RenderedStep(lines: seq<string>, j: nat)
    requires j < |lines|
    ensures Rendered(lines[..j + 1]) == Rendered(lines[..j]) + lines[j] + "\r"
  {
    assert lines[..j + 1][..j] == lines[..j];
  }

  /** The counter reaches line `j` at the occurrence of its name that
      line `j` is. */
  lemma OccurrenceAt(segs: map<string, SegEntry>, lines: seq<string>, fs: seq<Fields>, j: nat, i: nat)
    requires |fs| == |lines| && j < |lines| && EntryFacts(segs, lines, fs)
    requires SegmentName(lines[j]) != ""
    requires segs[SegmentName(lines[j])].Repeated? ==> i == |Named(lines[..j], fs[..j], SegmentName(lines[j]))|
    ensures var e := segs[SegmentName(lines[j])];
      Occurrence(e, i) == fs[j] && (e.Repeated? ==> i < |e.occs|)
  {
    var n := SegmentName(lines[j]);
    var c := |Named(lines[..j], fs[..j], n)|;
    NamedStep(lines, fs, j, n);
    NamedPrefix(lines, fs, j + 1, n);
    var pre := Named(lines[..j + 1], fs[..j + 1], n);
    assert pre == Named(lines[..j], fs[..j], n) + [fs[j]];
    assert pre[c] == fs[j];
  }

  /** The loop body on a structure line that `parse` built writes its
      segment line back. */
  lemma StepLine(m: Message, s: Seps, d: Delims, l: string, tally: Tally, w: Walk, line: Line, i: nat)
    requires SameSeps(s, d) && SegmentOk(l, d.fld[0])
    requires line == Line(SegmentName(l), ParseSegment(l, d).value.keys) && line.name in m.segs
    requires i == if m.segs[line.name].Repeated? && TallyKey(tally, line) in w.seen
                  then w.seen[TallyKey(tally, line)] + 1 else 0
    requires Occurrence(m.segs[line.name], i) == ParseSegment(l, d).value.fields
    requires m.segs[line.name].Repeated? ==> i < |m.segs[line.name].occs|
    ensures LineStep(m, s, tally, w, line)
         == Some(Walk(w.out + (l + "\r"),
                      if m.segs[line.name].Repeated? then w.seen[TallyKey(tally, line) := i] else w.seen))
  {
    LineRoundTrip(l, d, s, m.segs[line.name], i);
    NameMatchesPlain(line.name);
    LineStepAt(m, s, tally, w, line, i, Some(l + "\r"));
  }

  /** One step of the walk writes the next segment line back and keeps the
      counters right. */
  lemma WalkAdvance(m: Message, s: Seps, d: Delims, lines: seq<string>, fs: seq<Fields>,
                    tally: Tally, j: nat, w: Walk) returns (w': Walk)
    requires AllSeps(d) && SameSeps(s, d) && |fs| == |lines| && j < |lines|
    requires SegmentOk(lines[j], d.fld[0]) && fs[j] == ParseSegment(lines[j], d).value.fields
    requires |m.structure| == |lines|
    requires m.structure[j] == Line(SegmentName(lines[j]), ParseSegment(lines[j], d).value.keys)
    requires forall i :: 0 <= i < |lines| ==> m.structure[i].name == SegmentName(lines[i])
    requires EntryFacts(m.segs, lines, fs) && Uniform(tally, m.structure)
    requires Counted(m.structure, m.segs, tally, lines, fs, j, w.seen)
    requires w.out == Rendered(lines[..j])
    ensures LineStep(m, s, tally, w, m.structure[j]) == Some(w')
    ensures w'.out == Rendered(lines[..j + 1])
    ensures var n := SegmentName(lines[j]);
      w'.seen == if n in m.segs && m.segs[n].Repeated?
                 then w.seen[TallyKey(tally, m.structure[j]) := |Named(lines[..j], fs[..j], n)|]
                 else w.seen
  {
    var n := SegmentName(lines[j]);
    var line := m.structure[j];
    var e := m.segs[n];
    var key := TallyKey(tally, line);
    var i := if e.Repeated? && key in w.seen then w.seen[key] + 1 else 0;
    assert e.Repeated? ==> i == |Named(lines[..j], fs[..j], n)|;
    OccurrenceAt(m.segs, lines, fs, j, i);
    StepLine(m, s, d, lines[j], tally, w, line, i);
    w' := Walk(w.out + (lines[j] + "\r"), if e.Repeated? then w.seen[key := i] else w.seen);
    RenderedStep(lines, j);
  }

  /** The walk over the first `j` structure lines writes the first `j`
      segment lines back. */
  lemma {:induction false} WalkAll(m: Message, s: Seps, d: Delims, lines: seq<string>, fs: seq<Fields>,
                                   tally: Tally, j: nat) returns (w: Walk)
    requires WalkFacts(m, s, d, lines, fs) && Uniform(tally, m.structure) && j <= |lines|
    ensures WalkLines(m, s, tally, m.structure[..j]) == Some(w)
    ensures w.out == Rendered(lines[..j]) && Counted(m.structure, m.segs, tally, lines, fs, j, w.seen)
  {
    if j == 0 {
      assert m.structure[..0] == [] && lines[..0] == [] && fs[..0] == [];
      w := Walk("", map[]);
    } else {
      var w0 := WalkAll(m, s, d, lines, fs, tally, j - 1);
      WalkStep(m, s, tally, m.structure, j - 1, w0);
      ParsedAt(lines, d, j - 1);
      assert SegmentOk(lines[j - 1], d.fld[0]);
      assert forall i :: 0 <= i < |lines| ==> m.structure[i].name == SegmentName(lines[i]);
      w := WalkAdvance(m, s, d, lines, fs, tally, j - 1, w0);
      CountedStep(m.structure, m.segs, tally, lines, fs, j - 1, w0.seen);
    }
  }

  lemma WalkWhole(m: Message, s: Seps, d: Delims, lines: seq<string>, fs: seq<Fields>, tally: Tally)
    requires WalkFacts(m, s, d, lines, fs) && Uniform(tally, m.structure) && SepsOf(m) == Some(s)
    ensures ToStringWith(m, tally) == Some(Rendered(lines))
  {
    var w := WalkAll(m, s, d, lines, fs, tally, |lines|);
    assert m.structure[..|lines|] == m.structure && lines[..|lines|] == lines;
    ToStringWithIs(m, tally, s, w);
  }

  lemma ToStringWithIs(m: Message, tally: Tally, s: Seps, w: Walk)
    requires SepsOf(m) == Some(s) && WalkLines(m, s, tally, m.structure) == Some(w)
    ensures ToStringWith(m, tally) == Some(w.out)
  {
  }

  /** The lines written back one after the other are the text `parse` cut. */
  lemma RenderedLines(raw: string)
    ensures Rendered(LinesOf(raw)) == Replace(raw, '\n', '\r') + "\r"
  {
    RenderedJoin(LinesOf(raw));
    JoinSplit(Replace(raw, '\n', '\r'), '\r');
  }

  /** `toString(parse(raw))` is `raw` with its line ends as return
      characters, plus a final one, whenever the counters of lines of one
      name agree. */
  lemma RoundTripWith(raw: string, tally: Tally)
    requires WellFormed(raw) && Uniform(tally, ParseSpec(raw).value.structure)
    ensures ToStringWith(ParseSpec(raw).value, tally) == Some(Replace(raw, '\n', '\r') + "\r")
  {
    var m, s, d, lines, fs := EstablishFacts(raw);
    WalkWhole(m, s, d, lines, fs, tally);
    RenderedLines(raw);
  }

  /** With one counter per segment name, every well-formed message comes
      back: the line endings become return characters and a final return
      character is added. */
  lemma RoundTripFixed(raw: string)
    requires WellFormed(raw)
    ensures ToStringFixed(ParseSpec(raw).value) == Some(Replace(raw, '\n', '\r') + "\r")
  {
    RoundTripWith(raw, BySegmentName);
  }

  /** The source's counter, keyed by the whole structure line, gives the
      same result when the segments sharing a name also share their field
      count, so that their structure lines are equal. */
  lemma RoundTripAsWritten(raw: string)
    requires WellFormed(raw) && SameFieldCounts(raw)
    ensures ToStringSpec(ParseSpec(raw).value) == Some(Replace(raw, '\n', '\r') + "\r")
  {
    var m, s, d, lines, fs := EstablishFacts(raw);
    forall i, k | 0 <= i < |lines| && 0 <= k < |lines| && m.structure[i].name == m.structure[k].name
      ensures m.structure[i] == m.structure[k]
    {
      StructureLineOf(lines[i], d);
      StructureLineOf(lines[k], d);
    }
    RoundTripWith(raw, ByStructureLine);
  }

  /** The structure line of an accepted segment lists its keys in order. */
  lemma StructureLineOf(l: string, d: Delims)
    requires AllSeps(d) && SegmentOk(l, d.fld[0])
    ensures ParseSegment(l, d).value.keys == Range(FirstField(SegmentName(l)), |Texts(l, d.fld[0])|)
  {
    KeysInOrder(SegmentName(l), Texts(l, d.fld[0]));
  }

  /** An accepted segment has at least one key. */
  lemma KeysNonEmpty(l: string, d: Delims)
    requires AllSeps(d) && SegmentOk(l, d.fld[0])
    ensures ParseSegment(l, d).value.keys != []
  {
    StructureLineOf(l, d);
  }

  /** `toString` reads only the segment entries and the structure. */
  lemma {:induction false} WalkLinesSegs(m: Message, m': Message, s: Seps, tally: Tally, lines: seq<Line>)
    requires m.segs == m'.segs
    ensures WalkLines(m, s, tally, lines) == WalkLines(m', s, tally, lines)
  {
    if lines != [] {
      WalkLinesSegs(m, m', s, tally, lines[..|lines| - 1]);
    }
  }

  /** `toString` reads only the segment entries and the structure. */
  lemma ToStringWithSegs(m: Message, m': Message, tally: Tally)
    requires m.segs == m'.segs && m.structure == m'.structure
    ensures ToStringWith(m, tally) == ToStringWith(m', tally)
  {
    assert SepsOf(m) == SepsOf(m');
    if SepsOf(m).Some? {
      WalkLinesSegs(m, m', SepsOf(m).value, tally, m.structure);
    }
  }

  lemma SegmentsTrailing(lines: seq<string>, d: Delims)
    ensures ParseSegments(lines + [""], d) == ParseSegments(lines, d)
  {
    assert (lines + [""])[..|lines|] == lines;
  }

  lemma LinesTrailing(r0: string)
    ensures LinesOf(r0 + "\r") == LinesOf(r0) + [""]
    ensures Replace(r0 + "\r", '\n', '\r') == Replace(r0, '\n', '\r') + "\r"
  {
    ReplaceSnoc(r0, '\r', '\n', '\r');
    SplitTrailing(Replace(r0, '\n', '\r'), '\r');
  }

  lemma ParseSpecSame(raw: string, r0: string)
    requires raw != "" && r0 != "" && DelimsOf(raw) == DelimsOf(r0)
    requires ParseSegments(LinesOf(raw), DelimsOf(raw)) == ParseSegments(LinesOf(r0), DelimsOf(r0))
    ensures ParseSpec(raw).Success? <==> ParseSpec(r0).Success?
    ensures ParseSpec(raw).Success? ==>
      ParseSpec(raw).value.segs == ParseSpec(r0).value.segs &&
      ParseSpec(raw).value.structure == ParseSpec(r0).value.structure
  {
  }

  /** A return character at the end adds an empty line, which `parse`
      skips: the dictionary and the structure are those of the message
      without it. */
  lemma TrailingReturn(r0: string)
    requires |r0| >= 8
    ensures var raw := r0 + "\r";
      && ParseSpec(raw).value.segs == ParseSpec(r0).value.segs
      && ParseSpec(raw).value.structure == ParseSpec(r0).value.structure
      && Replace(raw, '\n', '\r') == Replace(r0, '\n', '\r') + "\r"
  {
    var raw := r0 + "\r";
    LinesTrailing(r0);
    assert DelimsOf(raw) == DelimsOf(r0);
    SegmentsTrailing(LinesOf(r0), DelimsOf(r0));
    ParseSpecSame(raw, r0);
  }

  /** The round trip the source's documentation promises: a message whose
      segments each end in a return character comes back unchanged; line
      feeds come back as return characters. */
  lemma RoundTripExact(body: string)
    requires WellFormed(body)
    ensures ToStringFixed(ParseSpec(body + "\r").value) == Some(Replace(body + "\r", '\n', '\r'))
    ensures '\n' !in body ==> ToStringFixed(ParseSpec(body + "\r").value) == Some(body + "\r")
  {
    TrailingReturn(body);
    ToStringWithSegs(ParseSpec(body + "\r").value, ParseSpec(body).value, BySegmentName);
    RoundTripFixed(body);
    if '\n' !in body {
      ReplaceAbsent(body + "\r", '\n', '\r');
    }
  }

  /** The same with the source's counter, when segments of one name have
      equal field counts. */
  lemma RoundTripExactAsWritten(body: string)
    requires WellFormed(body) && SameFieldCounts(body)
    ensures ToStringSpec(ParseSpec(body + "\r").value) == Some(Replace(body + "\r", '\n', '\r'))
    ensures '\n' !in body ==> ToStringSpec(ParseSpec(body + "\r").value) == Some(body + "\r")
  {
    TrailingReturn(body);
    ToStringWithSegs(ParseSpec(body + "\r").value, ParseSpec(body).value, ByStructureLine);
    RoundTripAsWritten(body);
    if '\n' !in body {
      ReplaceAbsent(body + "\r", '\n', '\r');
    }
  }

  // ---------------------------------------------------------------------
  // The occurrence counter keyed by the whole structure line
  // ---------------------------------------------------------------------

  /** A message of a header line and two more segment lines. */
  function ThreeLines(h: string, l1: string, l2: string): string {
    h + "\r" + l1 + "\r" + l2
  }

  /** A line with no line break in it. */
  predicate OneLine(l: string) {
    '\r' !in l && '\n' !in l
  }

  lemma ThreeLinesOf(h: string, l1: string, l2: string)
    requires OneLine(h) && OneLine(l1) && OneLine(l2)
    ensures LinesOf(ThreeLines(h, l1, l2)) == [h, l1, l2]
    ensures Replace(ThreeLines(h, l1, l2), '\n', '\r') == ThreeLines(h, l1, l2)
  {
    var t2 := "\r" + l2;
    var t1 := "\r" + l1 + t2;
    var raw := ThreeLines(h, l1, l2);
    assert raw == h + t1;
    NoNewline(h, l1, l2);
    ReplaceAbsent(raw, '\n', '\r');
    assert t2[1..] == l2;
    SplitWithout(l2, '\r');
    SplitPrefix(l1, t2, '\r');
    assert t1[1..] == l1 + t2;
    SplitPrefix(h, t1, '\r');
  }

  lemma NoNewline(h: string, l1: string, l2: string)
    requires OneLine(h) && OneLine(l1) && OneLine(l2)
    ensures '\n' !in ThreeLines(h, l1, l2)
  {
    var raw := ThreeLines(h, l1, l2);
    forall i | 0 <= i < |raw| ensures raw[i] != '\n' {
      if i < |h| {
        assert raw[i] == h[i];
      } else if i < |h| + 1 + |l1| + 1 {
        assert raw[i] == ("\r" + l1 + "\r")[i - |h|];
      } else {
        assert raw[i] == l2[i - |h| - |l1| - 2];
      }
    }
  }

  /** What the walk needs to write structure line `j` back as segment
      line `l` from the first occurrence of its name. */
  ghost predicate Ready(m: Message, s: Seps, d: Delims, l: string, j: nat) {
    && AllSeps(d) && SameSeps(s, d) && SegmentOk(l, d.fld[0]) && j < |m.structure|
    && m.structure[j] == Line(SegmentName(l), ParseSegment(l, d).value.keys)
    && SegmentName(l) in m.segs
    && Occurrence(m.segs[SegmentName(l)], 0) == ParseSegment(l, d).value.fields
    && (m.segs[SegmentName(l)].Repeated? ==> 0 < |m.segs[SegmentName(l)].occs|)
  }

  /** Line `j` is ready when no line before it has its name. */
  lemma FirstOccurrenceReady(m: Message, s: Seps, d: Delims, lines: seq<string>, fs: seq<Fields>, j: nat)
    requires WalkFacts(m, s, d, lines, fs) && j < |lines|
    requires Named(lines[..j], fs[..j], SegmentName(lines[j])) == []
    ensures Ready(m, s, d, lines[j], j)
  {
    SegmentOkName(lines[j], d.fld[0]);
    FirstOccurrenceAt(m.segs, lines, fs, d, j);
  }

  /** The walk writes a ready structure line back as its segment line. */
  lemma WriteLine(m: Message, s: Seps, d: Delims, l: string, j: nat, w: Walk) returns (w': Walk)
    requires Ready(m, s, d, l, j)
    requires WalkLines(m, s, ByStructureLine, m.structure[..j]) == Some(w)
    requires m.structure[j] !in w.seen
    ensures WalkLines(m, s, ByStructureLine, m.structure[..j + 1]) == Some(w')
    ensures w'.out == w.out + l + "\r"
    ensures w'.seen == w.seen || w'.seen == w.seen[m.structure[j] := 0]
  {
    var line := m.structure[j];
    StepLine(m, s, d, l, ByStructureLine, w, line, 0);
    WalkStep(m, s, ByStructureLine, m.structure, j, w);
    w' := Walk(w.out + (l + "\r"), if m.segs[line.name].Repeated? then w.seen[line := 0] else w.seen);
  }

  lemma FirstOccurrenceAt(segs: map<string, SegEntry>, lines: seq<string>, fs: seq<Fields>, d: Delims, j: nat)
    requires AllSeps(d) && fs == Parsed(lines, d) && j < |lines| && EntryFacts(segs, lines, fs)
    requires SegmentName(lines[j]) != ""
    requires Named(lines[..j], fs[..j], SegmentName(lines[j])) == []
    ensures var e := segs[SegmentName(lines[j])];
      Occurrence(e, 0) == ParseSegment(lines[j], d).value.fields && (e.Repeated? ==> 0 < |e.occs|)
  {
    OccurrenceAt(segs, lines, fs, j, 0);
    ParsedAt(lines, d, j);
  }

  lemma SegmentOkName(l: string, c: char)
    requires SegmentOk(l, c)
    ensures |SegmentName(l)| == 3 && SegmentName(l) != "raw" && '|' !in SegmentName(l)
  {
    NameMatchesPlain(SegmentName(l));
  }

  /** The walk over a header and two lines of one name writes the first
      two lines back; the counters hold the first two structure lines at
      most. */
  lemma HeaderAndFirst(m: Message, s: Seps, d: Delims, l0: string, l1: string) returns (w: Walk)
    requires Ready(m, s, d, l0, 0) && Ready(m, s, d, l1, 1)
    requires SegmentName(l0) != SegmentName(l1)
    ensures WalkLines(m, s, ByStructureLine, m.structure[..2]) == Some(w)
    ensures w.out == l0 + "\r" + l1 + "\r"
    ensures forall x :: x in w.seen ==> x == m.structure[0] || x == m.structure[1]
  {
    assert m.structure[..0] == [];
    var w1 := WriteLine(m, s, d, l0, 0, Walk("", map[]));
    assert m.structure[1] != m.structure[0];
    assert forall x :: x in w1.seen ==> x == m.structure[0];
    assert w1.out == "" + l0 + "\r" == l0 + "\r";
    w := WriteLine(m, s, d, l1, 1, w1);
    assert w.out == w1.out + l1 + "\r";
  }

  /** Neither of the first two lines, of different names, follows a line
      of its own name. */
  lemma FirstTwoUnnamed(lines: seq<string>, fs: seq<Fields>)
    requires |fs| == |lines| >= 2 && SegmentName(lines[0]) != SegmentName(lines[1])
    ensures Named(lines[..0], fs[..0], SegmentName(lines[0])) == []
    ensures Named(lines[..1], fs[..1], SegmentName(lines[1])) == []
  {
    assert lines[..0] == [] && fs[..0] == [];
    NamedStep(lines, fs, 0, SegmentName(lines[1]));
  }

  /** The first occurrence of line 1's name holds the fields of its texts. */
  lemma FirstOccurrenceFields(m: Message, s: Seps, d: Delims, lines: seq<string>, fs: seq<Fields>)
    requires WalkFacts(m, s, d, lines, fs) && |lines| >= 2
    requires SegmentName(lines[0]) != SegmentName(lines[1])
    ensures var n := SegmentName(lines[1]);
      && n in m.segs && (m.segs[n].Repeated? ==> 0 < |m.segs[n].occs|)
      && FieldsOk(n, Texts(lines[1], d.fld[0]), d, Occurrence(m.segs[n], 0))
  {
    SegmentOkName(lines[1], d.fld[0]);
    SecondOccurrence(m.segs, lines, fs);
    ParsedFieldsOk(lines, d, 1);
  }

  /** Line 1 is the first occurrence of its name when line 0 has another. */
  lemma SecondOccurrence(segs: map<string, SegEntry>, lines: seq<string>, fs: seq<Fields>)
    requires |fs| == |lines| >= 2 && EntryFacts(segs, lines, fs)
    requires SegmentName(lines[1]) != "" && SegmentName(lines[0]) != SegmentName(lines[1])
    ensures var n := SegmentName(lines[1]);
      && n in segs && Occurrence(segs[n], 0) == fs[1] && (segs[n].Repeated? ==> 0 < |segs[n].occs|)
  {
    assert lines[..0] == [] && fs[..0] == [];
    NamedStep(lines, fs, 0, SegmentName(lines[1]));
    OccurrenceAt(segs, lines, fs, 1, 0);
  }

  /** The dictionary of each segment line holds the fields of its texts. */
  lemma ParsedFieldsOk(lines: seq<string>, d: Delims, j: nat)
    requires AllSeps(d) && j < |lines|
    ensures FieldsOk(SegmentName(lines[j]), Texts(lines[j], d.fld[0]), d, Parsed(lines, d)[j])
  {
    var c := d.fld[0];
    ParsedAt(lines, d, j);
    SegmentParts(lines[j], d, c);
    FieldsOfSegment(SegmentName(lines[j]), Texts(lines[j], c), d);
  }

  /** The third line, of the second line's name with fewer fields, is
      written from the first occurrence of that name. */
  lemma ShortLineText(m: Message, s: Seps, d: Delims, lines: seq<string>, fs: seq<Fields>)
    requires WalkFacts(m, s, d, lines, fs) && |lines| == 3
    requires SegmentName(lines[0]) != SegmentName(lines[1]) == SegmentName(lines[2])
    requires |Texts(lines[2], d.fld[0])| < |Texts(lines[1], d.fld[0])|
    ensures var n := SegmentName(lines[1]);
      && n == m.structure[2].name && n in m.segs && '|' !in n
      && m.structure[2] != m.structure[1] && m.structure[2] != m.structure[0]
      && LineText(m.segs[n], 0, m.structure[2], s)
         == Some(n + Prefixed(Texts(lines[1], d.fld[0])[..|Texts(lines[2], d.fld[0])|], s.fld) + "\r")
  {
    var c := d.fld[0];
    var n := SegmentName(lines[1]);
    SegmentOkName(lines[1], c);
    var line := m.structure[2];
    StructureLineOf(lines[1], d);
    StructureLineOf(lines[2], d);
    FirstOccurrenceFields(m, s, d, lines, fs);
    var k := |Texts(lines[2], c)|;
    SegmentTextParts(Occurrence(m.segs[n], 0), n, Texts(lines[1], c), d, s, k);
    LineTextOf(m.segs[n], 0, line, s, Prefixed(Texts(lines[1], c)[..k], s.fld));
  }

  /** The third line, of the second line's name but with fewer fields, is
      written from the second line's fields. */
  lemma LastRestarts(m: Message, s: Seps, d: Delims, lines: seq<string>, fs: seq<Fields>, w: Walk)
    requires WalkFacts(m, s, d, lines, fs) && SepsOf(m) == Some(s) && |lines| == 3
    requires SegmentName(lines[0]) == "MSH" && SegmentName(lines[1]) == SegmentName(lines[2]) != "MSH"
    requires |Texts(lines[2], d.fld[0])| < |Texts(lines[1], d.fld[0])|
    requires WalkLines(m, s, ByStructureLine, m.structure[..2]) == Some(w)
    requires forall x :: x in w.seen ==> x == m.structure[0] || x == m.structure[1]
    ensures ToStringSpec(m)
         == Some(w.out + SegmentName(lines[1])
                 + Prefixed(Texts(lines[1], d.fld[0])[..|Texts(lines[2], d.fld[0])|], s.fld) + "\r")
  {
    var n := SegmentName(lines[1]);
    var body := Prefixed(Texts(lines[1], d.fld[0])[..|Texts(lines[2], d.fld[0])|], s.fld);
    ShortLineText(m, s, d, lines, fs);
    ThirdLineFresh(m, s, w, n + body + "\r");
    assert w.out + (n + body + "\r") == w.out + n + body + "\r";
  }

  /** A third structure line not seen before is written from occurrence 0. */
  lemma ThirdLineFresh(m: Message, s: Seps, w: Walk, text: string)
    requires SepsOf(m) == Some(s) && |m.structure| == 3
    requires WalkLines(m, s, ByStructureLine, m.structure[..2]) == Some(w)
    requires forall x :: x in w.seen ==> x == m.structure[0] || x == m.structure[1]
    requires m.structure[2] != m.structure[1] && m.structure[2] != m.structure[0]
    requires m.structure[2].name in m.segs && '|' !in m.structure[2].name
    requires LineText(m.segs[m.structure[2].name], 0, m.structure[2], s) == Some(text)
    ensures ToStringSpec(m) == Some(w.out + text)
  {
    assert m.structure[2] !in w.seen;
    ToStringOfThree(m, ByStructureLine, s, w, 0, text);
  }

  /** As written, a segment repeated with fewer fields has a structure line
      of its own, so its counter starts again at 0: the third line is
      written from the fields of the second, cut to its own field count. */
  lemma CounterByLineRestarts(h: string, l1: string, l2: string)
    requires OneLine(h) && OneLine(l1) && OneLine(l2) && |h| >= 8
    requires WellFormed(ThreeLines(h, l1, l2))
    requires SegmentName(l1) == SegmentName(l2)
    requires |Texts(l2, h[3])| < |Texts(l1, h[3])|
    ensures ToStringSpec(ParseSpec(ThreeLines(h, l1, l2)).value)
         == Some(h + "\r" + l1 + "\r"
                 + SegmentName(l1) + Prefixed(Texts(l1, h[3])[..|Texts(l2, h[3])|], [h[3]]) + "\r")
  {
    var raw := ThreeLines(h, l1, l2);
    ThreeLinesOf(h, l1, l2);
    var m, s, d, lines, fs := EstablishFacts(raw);
    LinesOk(raw);
    assert raw[3] == h[3];
    assert s.fld == d.fld == [h[3]];
    FirstTwoUnnamed(lines, fs);
    FirstOccurrenceReady(m, s, d, lines, fs, 0);
    FirstOccurrenceReady(m, s, d, lines, fs, 1);
    var w := HeaderAndFirst(m, s, d, h, l1);
    LastRestarts(m, s, d, lines, fs, w);
  }

  /** A header and two more segment lines, each accepted on its own, make
      a well-formed message. */
  lemma ThreeLinesWellFormed(h: string, l1: string, l2: string)
    requires WellFormed(h) && OneLine(h) && OneLine(l1) && OneLine(l2)
    requires SegmentOk(l1, h[3]) && SegmentOk(l2, h[3])
    requires SegmentName(l1) != "MSH" && SegmentName(l2) != "MSH"
    ensures WellFormed(ThreeLines(h, l1, l2))
  {
    var raw := ThreeLines(h, l1, l2);
    ThreeLinesOf(h, l1, l2);
    ReplaceAbsent(h, '\n', '\r');
    SplitWithout(h, '\r');
    assert LinesOf(h) == [h];
    assert raw[..|h|] == h;
    assert forall i :: 0 <= i < 8 ==> raw[i] == h[i];
    assert raw[..3] == h[..3];
  }

  /** The two OBX lines of the example: fields `a`, `b`, then field `c`. */
  lemma ObxLines()
    ensures OneLine("OBX|a|b") && OneLine("OBX|c")
    ensures SegmentName("OBX|a|b") == "OBX" && SegmentName("OBX|c") == "OBX"
    ensures Texts("OBX|a|b", '|') == ["a", "b"] && Texts("OBX|c", '|') == ["c"]
    ensures SegmentOk("OBX|a|b", '|') && SegmentOk("OBX|c", '|')
  {
    assert SegmentBody("OBX|a|b") == "a" + "|" + "b";
    SplitPrefix("a", "|b", '|');
    assert "|b"[1..] == "b";
    SplitWithout("b", '|');
    SplitWithout("c", '|');
    assert NameMatches("OBX");
    assert !("OBX." <= "a") && !("OBX." <= "b") && !("OBX." <= "c");
  }

  /** The example message is well formed after any well-formed header. */
  lemma ObxMessage(h: string)
    requires WellFormed(h) && OneLine(h) && h[3] == '|'
    ensures h + "\rOBX|a|b\rOBX|c" == ThreeLines(h, "OBX|a|b", "OBX|c")
    ensures WellFormed(ThreeLines(h, "OBX|a|b", "OBX|c"))
    ensures |Texts("OBX|c", h[3])| < |Texts("OBX|a|b", h[3])|
    ensures OneLine("OBX|a|b") && OneLine("OBX|c") && SegmentName("OBX|a|b") == SegmentName("OBX|c")
    ensures Replace(ThreeLines(h, "OBX|a|b", "OBX|c"), '\n', '\r') + "\r" == h + "\rOBX|a|b\rOBX|c\r"
  {
    ObxLines();
    ThreeLinesOf(h, "OBX|a|b", "OBX|c");
    ThreeLinesWellFormed(h, "OBX|a|b", "OBX|c");
    ObxJoined(h);
  }

  lemma ObxJoined(h: string)
    ensures h + "\rOBX|a|b\rOBX|c" == ThreeLines(h, "OBX|a|b", "OBX|c")
    ensures ThreeLines(h, "OBX|a|b", "OBX|c") + "\r" == h + "\rOBX|a|b\rOBX|c\r"
  {
    var t := "\r" + "OBX|a|b" + "\r" + "OBX|c";
    assert t == "\rOBX|a|b\rOBX|c";
    assert t + "\r" == "\rOBX|a|b\rOBX|c\r";
    assert ThreeLines(h, "OBX|a|b", "OBX|c") == h + t;
  }

  /** The third line the source writes for the example. */
  lemma ObxRestartText(h: string, r: Option<string>)
    requires |h| >= 8 && h[3] == '|'
    requires r == Some(h + "\r" + "OBX|a|b" + "\r"
                       + SegmentName("OBX|a|b") + Prefixed(Texts("OBX|a|b", h[3])[..|Texts("OBX|c", h[3])|], [h[3]]) + "\r")
    ensures r == Some(h + "\rOBX|a|b\rOBX|a\r")
  {
    ObxLines();
    var c := h[3];
    var a: seq<string> := ["a", "b"];
    assert [c] == "|";
    assert Texts("OBX|a|b", c) == a && |Texts("OBX|c", c)| == 1;
    assert a[..1] == ["a"];
    PrefixedOne("a", "|");
    ObxText(h);
  }

  lemma PrefixedOne(t: string, sep: string)
    ensures Prefixed([t], sep) == "" + sep + t
  {
    var one := [t];
    assert one[..0] == [];
  }

  lemma ObxText(h: string)
    ensures h + "\r" + "OBX|a|b" + "\r" + "OBX" + ("" + "|" + "a") + "\r" == h + "\rOBX|a|b\rOBX|a\r"
  {
    var t := "\r" + "OBX|a|b" + "\r" + "OBX" + ("" + "|" + "a") + "\r";
    assert t == "\rOBX|a|b\rOBX|a\r";
    assert h + "\r" + "OBX|a|b" + "\r" + "OBX" + ("" + "|" + "a") + "\r" == h + t;
  }

  /** As written, after any well-formed header, `OBX|a|b` then `OBX|c` is
      written back with `OBX|a` as its last line. */
  lemma CounterByLineRepeatsOccurrence(h: string)
    requires WellFormed(h) && OneLine(h) && h[3] == '|'
    ensures ToStringSpec(ParseSpec(h + "\rOBX|a|b\rOBX|c").value) == Some(h + "\rOBX|a|b\rOBX|a\r")
  {
    ObxMessage(h);
    CounterByLineRestarts(h, "OBX|a|b", "OBX|c");
    ObxRestartText(h, ToStringSpec(ParseSpec(ThreeLines(h, "OBX|a|b", "OBX|c")).value));
  }

  /** With one counter per segment name the same message comes back with
      `OBX|c` as its last line. */
  lemma CounterByNameAdvances(h: string)
    requires WellFormed(h) && OneLine(h) && h[3] == '|'
    ensures ToStringFixed(ParseSpec(h + "\rOBX|a|b\rOBX|c").value) == Some(h + "\rOBX|a|b\rOBX|c\r")
  {
    ObxMessage(h);
    RoundTripFixed(ThreeLines(h, "OBX|a|b", "OBX|c"));
  }
}
