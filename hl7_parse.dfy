/**
 * `parse` of hl7.py: raw message text to the dictionary of segments,
 * fields, repetitions, components and subcomponents, plus the `structure`
 * skeleton that records the order the dictionary loses.
 *
 * The functions below state what `parse` computes; the methods at the end
 * compute it the way the source does, loop by loop, and are proved equal
 * to those functions.
 */
module Hl7Parse {
  import opened Wrappers
  import opened Text
  import opened Hl7Model

  /** `parse('')` returns False; `str.split('')` raises ValueError, which
      happens when the message is too short to hold the delimiter read. */
  datatype ParseError = EmptyInput | EmptySeparator | NoShortcut

  /** The five encoding characters, read as `raw[3:4]` ... `raw[7:8]`. */
  datatype Delims = Delims(fld: Sep, com: Sep, rep: Sep, esc: Sep, sub: Sep)

  function DelimsOf(raw: string): (d: Delims)
    ensures |raw| >= 8 ==> d == Delims([raw[3]], [raw[4]], [raw[5]], [raw[6]], [raw[7]])
    ensures d.fld == if |raw| > 3 then [raw[3]] else []
    ensures d.com == if |raw| > 4 then [raw[4]] else []
    ensures d.rep == if |raw| > 5 then [raw[5]] else []
    ensures d.esc == if |raw| > 6 then [raw[6]] else []
    ensures d.sub == if |raw| > 7 then [raw[7]] else []
  {
    Delims(Slice(raw, 3, 4), Slice(raw, 4, 5), Slice(raw, 5, 6), Slice(raw, 6, 7), Slice(raw, 7, 8))
  }

  /** The four delimiters `parse` splits on are all present. */
  predicate AllSeps(d: Delims) {
    d.fld != [] && d.com != [] && d.rep != [] && d.sub != []
  }

  /** `s.split(sep)`, which raises on an empty separator. */
  function SplitOn(s: string, sep: Sep): (r: Result<seq<string>, ParseError>)
    ensures r.Success? <==> sep != []
    ensures r.Failure? ==> r.error == EmptySeparator
  {
    if sep == [] then Failure(EmptySeparator) else Success(Split(s, sep[0]))
  }

  /** Pieces keyed by their 1-based position, as the counters
      `comCount` and `subCount` number them. */
  function Indexed(parts: seq<string>): map<nat, string> {
    if parts == [] then map[]
    else Indexed(parts[..|parts| - 1])[|parts| := parts[|parts| - 1]]
  }

  /** Key `k` of `Indexed(parts)` is the `k`-th part, for `k` in 1..n. */
  lemma {:induction false} IndexedParts(parts: seq<string>)
    ensures forall k :: k in Indexed(parts) <==> 1 <= k <= |parts|
    ensures forall k :: 1 <= k <= |parts| ==> k in Indexed(parts) && Indexed(parts)[k] == parts[k - 1]
  {
    if parts != [] {
      IndexedParts(parts[..|parts| - 1]);
    }
  }

  /** One component (hl7.py:111-121, 147-157): split into subcomponents
      when it holds the subcomponent character. */
  function ParseComponent(c: string, sub: Sep): (r: Result<Component, ParseError>)
    ensures r.Success? <==> sub != []
    ensures r.Failure? ==> r.error == EmptySeparator
    ensures r.Success? ==> (r.value.CText? <==> sub[0] !in c)
    ensures r.Success? && r.value.CText? ==> r.value.text == c
  {
    if Has(c, sub) then
      var parts :- SplitOn(c, sub);
      Success(Subs(Indexed(parts)))
    else
      Success(CText(c))
  }

  /** The component loop (hl7.py:102-123, 138-159): component `k` is
      the `k`-th piece, parsed. */
  function ParseComponents(parts: seq<string>, sub: Sep): (r: Result<map<nat, Component>, ParseError>)
    ensures r.Success? <==> (sub != [] || parts == [])
    ensures r.Failure? ==> r.error == EmptySeparator
  {
    if parts == [] then Success(map[])
    else
      var m :- ParseComponents(parts[..|parts| - 1], sub);
      var c :- ParseComponent(parts[|parts| - 1], sub);
      Success(m[|parts| := c])
  }

  /** Component `k` is the `k`-th piece, parsed, for `k` in 1..n. */
  lemma {:induction false} ComponentsPointwise(parts: seq<string>, sub: Sep)
    requires sub != []
    ensures forall k :: k in ParseComponents(parts, sub).value <==> 1 <= k <= |parts|
    ensures forall k :: 1 <= k <= |parts| ==>
      k in ParseComponents(parts, sub).value &&
      ParseComponent(parts[k - 1], sub) == Success(ParseComponents(parts, sub).value[k])
  {
    if parts != [] {
      var pre := parts[..|parts| - 1];
      ComponentsPointwise(pre, sub);
      forall k | 1 <= k < |parts|
        ensures k in ParseComponents(parts, sub).value
        ensures ParseComponent(parts[k - 1], sub) == Success(ParseComponents(parts, sub).value[k])
      {
        assert pre[k - 1] == parts[k - 1];
      }
    }
  }

  /** One repetition of a repeating field (hl7.py:98-125): a component map
      when it holds the component character, the piece itself otherwise.
      Unlike a non-repeating field, a repetition with subcomponents but no
      components stays a plain string. */
  function ParseRepetition(p: string, d: Delims): (r: Result<Value, ParseError>)
    ensures r.Failure? ==> r.error == EmptySeparator
    ensures d.com != [] && d.sub != [] ==> r.Success?
    ensures r.Success? ==> (r.value.Text? <==> !Has(p, d.com))
    ensures r.Success? && r.value.Text? ==> r.value.text == p
    ensures r.Success? && r.value.Comps? ==>
      d.com != [] && ParseComponents(Split(p, d.com[0]), d.sub) == Success(r.value.comps)
  {
    if Has(p, d.com) then
      var parts :- SplitOn(p, d.com);
      var cs :- ParseComponents(parts, d.sub);
      Success(Comps(cs))
    else
      Success(Text(p))
  }

  /** The repetition loop (hl7.py:97-128): one entry per piece, in order. */
  function ParseRepetitions(pieces: seq<string>, d: Delims): (r: Result<seq<Value>, ParseError>)
    ensures r.Failure? ==> r.error == EmptySeparator
    ensures d.com != [] && d.sub != [] ==> r.Success?
    ensures r.Success? ==> |r.value| == |pieces|
  {
    if pieces == [] then Success([])
    else
      var vs :- ParseRepetitions(pieces[..|pieces| - 1], d);
      var v :- ParseRepetition(pieces[|pieces| - 1], d);
      Success(vs + [v])
  }

  /** Repetition `i` is the `i`-th piece, parsed. */
  lemma {:induction false} RepetitionsPointwise(pieces: seq<string>, d: Delims)
    requires ParseRepetitions(pieces, d).Success?
    ensures forall i :: 0 <= i < |pieces| ==> ParseRepetition(pieces[i], d) == Success(ParseRepetitions(pieces, d).value[i])
  {
    if pieces != [] {
      var pre := pieces[..|pieces| - 1];
      RepetitionsPointwise(pre, d);
      forall i | 0 <= i < |pre|
        ensures ParseRepetition(pieces[i], d) == Success(ParseRepetitions(pieces, d).value[i])
      {
        assert pre[i] == pieces[i];
      }
    }
  }

  /** One field (hl7.py:92-174). `msh2` says the key is `MSH.2`, which is
      never subdivided. */
  function ParseField(t: string, msh2: bool, d: Delims): (r: Result<Field, ParseError>)
    ensures r.Failure? ==> r.error == EmptySeparator
    ensures d.com != [] && d.rep != [] && d.sub != [] ==> r.Success?
    ensures msh2 ==> r == Success(One(Text(t)))
    ensures r.Success? ==> (r.value.Reps? <==> !msh2 && Has(t, d.rep))
  {
    if Has(t, d.rep) && !msh2 then
      var pieces :- SplitOn(t, d.rep);
      var vs :- ParseRepetitions(pieces, d);
      Success(Reps(vs))
    else if Has(t, d.com) && !msh2 then
      var parts :- SplitOn(t, d.com);
      var cs :- ParseComponents(parts, d.sub);
      Success(One(Comps(cs)))
    else if Has(t, d.sub) && !msh2 then
      var parts :- SplitOn(t, d.sub);
      Success(One(Comps(map[1 := Subs(Indexed(parts))])))
    else
      Success(One(Text(t)))
  }

  /** What the field loop of one segment has built so far: the field
      dictionary and the segment's line of the skeleton. */
  datatype SegParse = SegParse(fields: Fields, keys: seq<nat>)

  /** `segment[0:3]`. */
  function SegmentName(s: string): string {
    s[..if |s| < 3 then |s| else 3]
  }

  /** `segment[4:]`: the character at offset 3 is dropped unread. */
  function SegmentBody(s: string): string {
    if |s| < 4 then "" else s[4..]
  }

  /** MSH numbering starts at 2 because MSH-1 is the separator itself. */
  function FirstField(name: string): nat {
    if name == "MSH" then 2 else 1
  }

  /** `[a, a+1, ..., a+n-1]`. */
  function Range(a: nat, n: nat): (r: seq<nat>)
    ensures |r| == n
    ensures forall i :: 0 <= i < n ==> r[i] == a + i
  {
    seq(n, i => a + i)
  }

  /** `fields.index(field)` at the moment field `k` is processed: the
      positions before it hold key names, so the first position holding
      the field text is either one of those or the field's own. */
  function KeyIndex(keys: seq<nat>, name: string, t: string): (j: nat)
    ensures j <= |keys|
  {
    if keys == [] then 0
    else if KeyName(name, keys[0]) == t then 0
    else 1 + KeyIndex(keys[1..], name, t)
  }

  /** `KeyIndex` is the first position whose key name is `t`, or the
      length when there is none. */
  lemma {:induction false} KeyIndexFirst(keys: seq<nat>, name: string, t: string)
    ensures var j := KeyIndex(keys, name, t);
      && (j < |keys| ==> KeyName(name, keys[j]) == t)
      && (forall i :: 0 <= i < j ==> KeyName(name, keys[i]) != t)
  {
    if keys != [] && KeyName(name, keys[0]) != t {
      KeyIndexFirst(keys[1..], name, t);
      var j := KeyIndex(keys, name, t);
      forall i | 1 <= i < j ensures KeyName(name, keys[i]) != t {
        assert keys[1..][i - 1] == keys[i];
      }
    }
  }

  /** hl7.py:176-177: the position `fields.index(field)` found receives the
      new key name; when that is an earlier position, the field's own
      position keeps its text, which is the key name that stood there. */
  function Reindex(keys: seq<nat>, name: string, t: string, k: nat): (r: seq<nat>)
    ensures |r| == |keys| + 1
  {
    var j := KeyIndex(keys, name, t);
    if j == |keys| then keys + [k] else keys[j := k] + [keys[j]]
  }

  /** The swap keeps every key: the new one is added, none is lost. */
  lemma ReindexKeeps(keys: seq<nat>, name: string, t: string, k: nat)
    ensures multiset(Reindex(keys, name, t, k)) == multiset(keys) + multiset{k}
  {
    var j := KeyIndex(keys, name, t);
    if j < |keys| {
      assert keys == keys[..j] + [keys[j]] + keys[j + 1..];
      assert keys[j := k] == keys[..j] + [k] + keys[j + 1..];
    }
  }

  /** No field text looks like a key name of its own segment. */
  predicate NoKeyText(name: string, texts: seq<string>) {
    forall j :: 0 <= j < |texts| ==> !(name + "." <= texts[j])
  }

  /** The field dictionary of one segment holds field `FirstField + j` for
      the `j`-th piece (and `MSH.1`, the separator, for MSH). */
  ghost predicate FieldsOk(name: string, texts: seq<string>, d: Delims, fields: Fields) {
    && (forall k :: k in fields <==> (name == "MSH" && k == 1) || FirstField(name) <= k < FirstField(name) + |texts|)
    && (name == "MSH" ==> fields[1] == One(Text(d.fld)))
    && (forall j :: 0 <= j < |texts| ==>
          ParseField(texts[j], name == "MSH" && j == 0, d) == Success(fields[FirstField(name) + j]))
  }

  /** The field dictionary the field loop of one segment builds
      (hl7.py:80-179); the key sequence is `KeysOf`. */
  function ParseFields(name: string, texts: seq<string>, d: Delims): (r: Result<Fields, ParseError>)
    ensures r.Failure? ==> r.error == EmptySeparator
    ensures d.com != [] && d.rep != [] && d.sub != [] ==> r.Success?
  {
    if texts == [] then
      Success(if name == "MSH" then map[1 := One(Text(d.fld))] else map[])
    else
      var n := |texts| - 1;
      var k := FirstField(name) + n;
      match ParseFields(name, texts[..n], d)
      case Failure(e) => Failure(e)
      case Success(p) =>
        match ParseField(texts[n], name == "MSH" && k == 2, d)
        case Failure(e) => Failure(e)
        case Success(f) => Success(p[k := f])
  }

  /** The field loop of one segment: its dictionary and its line of the
      skeleton. */
  function ParseBody(name: string, texts: seq<string>, d: Delims): (r: Result<SegParse, ParseError>)
    ensures r.Failure? <==> ParseFields(name, texts, d).Failure?
  {
    match ParseFields(name, texts, d)
    case Failure(e) => Failure(e)
    case Success(fields) => Success(SegParse(fields, KeysOf(name, texts)))
  }

  /** Field `FirstField + j` of a segment is its `j`-th piece, parsed; MSH-1
      is the separator and MSH-2 is kept verbatim. */
  lemma {:induction false} FieldsOfSegment(name: string, texts: seq<string>, d: Delims)
    requires ParseFields(name, texts, d).Success?
    ensures FieldsOk(name, texts, d, ParseFields(name, texts, d).value)
  {
    if texts != [] {
      var p, f := FieldsUnfold(name, texts, d);
      FieldsOfSegment(name, texts[..|texts| - 1], d);
      FieldsOkStep(name, texts, d, p, f);
    }
  }

  lemma FieldsOkStep(name: string, texts: seq<string>, d: Delims, fields: Fields, f: Field)
    requires |texts| > 0
    requires FieldsOk(name, texts[..|texts| - 1], d, fields)
    requires ParseField(texts[|texts| - 1], name == "MSH" && |texts| == 1, d) == Success(f)
    ensures FieldsOk(name, texts, d, fields[FirstField(name) + |texts| - 1 := f])
  {
    var n := |texts| - 1;
    var k := FirstField(name) + n;
    var fields' := fields[k := f];
    forall j | 0 <= j < n
      ensures ParseField(texts[j], name == "MSH" && j == 0, d) == Success(fields'[FirstField(name) + j])
    {
      assert texts[..n][j] == texts[j];
    }
  }

  /** The key sequence the field loop leaves behind: it depends on the
      field texts only. */
  function KeysOf(name: string, texts: seq<string>): (keys: seq<nat>)
    ensures |keys| == |texts|
  {
    if texts == [] then []
    else Reindex(KeysOf(name, texts[..|texts| - 1]), name, texts[|texts| - 1], FirstField(name) + |texts| - 1)
  }

  /** The skeleton line of a segment lists each of its field keys exactly
      once. */
  lemma {:induction false} KeysOfSegment(name: string, texts: seq<string>)
    ensures multiset(KeysOf(name, texts)) == multiset(Range(FirstField(name), |texts|))
  {
    if texts != [] {
      var n := |texts| - 1;
      KeysOfSegment(name, texts[..n]);
      KeysStep(KeysOf(name, texts[..n]), name, texts[n], FirstField(name), n);
    }
  }

  lemma KeysStep(keys: seq<nat>, name: string, t: string, first: nat, n: nat)
    requires multiset(keys) == multiset(Range(first, n))
    ensures multiset(Reindex(keys, name, t, first + n)) == multiset(Range(first, n + 1))
  {
    ReindexKeeps(keys, name, t, first + n);
    assert Range(first, n + 1) == Range(first, n) + [first + n];
  }

  /** It lists them in order unless a field text equals an earlier key
      name. */
  lemma {:induction false} KeysInOrder(name: string, texts: seq<string>)
    requires NoKeyText(name, texts)
    ensures KeysOf(name, texts) == Range(FirstField(name), |texts|)
  {
    if texts != [] {
      var n := |texts| - 1;
      assert NoKeyText(name, texts[..n]) by {
        forall j | 0 <= j < n ensures !(name + "." <= texts[..n][j]) {
          assert texts[..n][j] == texts[j];
        }
      }
      KeysInOrder(name, texts[..n]);
      OrderStep(KeysOf(name, texts[..n]), name, texts[n], FirstField(name), n);
    }
  }

  lemma OrderStep(keys: seq<nat>, name: string, t: string, first: nat, n: nat)
    requires keys == Range(first, n)
    requires !(name + "." <= t)
    ensures Reindex(keys, name, t, first + n) == Range(first, n + 1)
  {
    NoKeyTextIndex(keys, name, t);
    assert Range(first, n + 1) == Range(first, n) + [first + n];
  }

  /** One step of the field loop, read backwards from its result. */
  lemma FieldsUnfold(name: string, texts: seq<string>, d: Delims) returns (p: Fields, f: Field)
    requires texts != [] && ParseFields(name, texts, d).Success?
    ensures ParseFields(name, texts[..|texts| - 1], d) == Success(p)
    ensures ParseField(texts[|texts| - 1], name == "MSH" && FirstField(name) + |texts| - 1 == 2, d) == Success(f)
    ensures ParseFields(name, texts, d) == Success(p[FirstField(name) + |texts| - 1 := f])
  {
    p := ParseFields(name, texts[..|texts| - 1], d).value;
    f := ParseField(texts[|texts| - 1], name == "MSH" && FirstField(name) + |texts| - 1 == 2, d).value;
  }

  /** A text that does not start with `name.` matches no key name. */
  lemma {:induction false} NoKeyTextIndex(keys: seq<nat>, name: string, t: string)
    requires !(name + "." <= t)
    ensures KeyIndex(keys, name, t) == |keys|
  {
    if keys != [] {
      var kn := KeyName(name, keys[0]);
      assert name + "." <= kn;
      NoKeyTextIndex(keys[1..], name, t);
    }
  }

  /** What the segment loop has built so far: the dictionary, `segList`
      and the skeleton. */
  datatype PState = PState(segs: map<string, SegEntry>, segList: seq<string>, structure: seq<Line>)

  /** The segment loop (hl7.py:44-189). A segment whose name was seen before
      turns the entry into the list of all its occurrences. */
  function ParseSegments(segments: seq<string>, d: Delims): (r: Result<PState, ParseError>)
    ensures r.Failure? ==> r.error == EmptySeparator
    ensures AllSeps(d) ==> r.Success?
    ensures r.Success? ==> forall n :: n in r.value.segs <==> n in r.value.segList
  {
    if segments == [] then Success(PState(map[], [], []))
    else
      var s := segments[|segments| - 1];
      var name := SegmentName(s);
      match ParseSegments(segments[..|segments| - 1], d)
      case Failure(e) => Failure(e)
      case Success(st) =>
        if name == "" then Success(st)
        else
          match ParseSegment(s, d)
          case Failure(e) => Failure(e)
          case Success(sp) => Success(AddSegment(st, name, sp))
  }

  /** One step of the segment loop, read backwards from its result. */
  lemma SegmentsUnfold(segments: seq<string>, d: Delims) returns (st: PState, sp: SegParse)
    requires segments != [] && ParseSegments(segments, d).Success?
    ensures ParseSegments(segments[..|segments| - 1], d) == Success(st)
    ensures SegmentName(segments[|segments| - 1]) == "" ==> ParseSegments(segments, d) == Success(st)
    ensures SegmentName(segments[|segments| - 1]) != "" ==>
      && ParseSegment(segments[|segments| - 1], d) == Success(sp)
      && ParseSegments(segments, d) == Success(AddSegment(st, SegmentName(segments[|segments| - 1]), sp))
  {
    st := ParseSegments(segments[..|segments| - 1], d).value;
    if SegmentName(segments[|segments| - 1]) != "" {
      sp := ParseSegment(segments[|segments| - 1], d).value;
    } else {
      sp := SegParse(map[], []);
    }
  }

  /** One segment line (hl7.py:71-179): its name is dropped with the
      character after it, and the rest is split on the field separator. */
  function ParseSegment(s: string, d: Delims): (r: Result<SegParse, ParseError>)
    ensures r.Failure? ==> r.error == EmptySeparator
    ensures AllSeps(d) ==> r.Success?
  {
    var texts :- SplitOn(SegmentBody(s), d.fld);
    ParseBody(SegmentName(s), texts, d)
  }

  /** hl7.py:52-68 and 187-189 for one segment named `name`. */
  function AddSegment(st: PState, name: string, sp: SegParse): (r: PState)
    requires forall n :: n in st.segs <==> n in st.segList
    ensures forall n :: n in r.segs <==> n in r.segList
  {
    if name in st.segList then
      PState(st.segs[name := Repeated(Occs(st.segs[name]) + [sp.fields])], st.segList,
             st.structure + [Line(name, sp.keys)])
    else
      PState(st.segs[name := Single(sp.fields)], st.segList + [name],
             st.structure + [Line(name, sp.keys)])
  }

  /** The segment entries left in the dictionary: hl7.py:195 writes the raw
      text over the entry of a segment named `raw`. */
  function Stored(segs: map<string, SegEntry>): (r: map<string, SegEntry>)
    ensures "raw" !in r
    ensures forall n :: n in r <==> n in segs && n != "raw"
    ensures forall n :: n in r ==> r[n] == segs[n]
  {
    segs - {"raw"}
  }

  /** `parse(raw)` without the short-cut entries. */
  function ParseSpec(raw: string): (r: Result<Message, ParseError>)
    ensures raw == "" <==> r == Failure(EmptyInput)
    ensures |raw| >= 8 ==> r.Success?
  {
    if raw == "" then Failure(EmptyInput)
    else
      var d := DelimsOf(raw);
      var text := Replace(raw, '\n', '\r');
      match ParseSegments(Split(text, '\r'), d)
      case Failure(e) => Failure(e)
      case Success(st) => Success(Message(Stored(st.segs), st.structure, text, st.segList, ""))
  }

  /** The short-cut entries `msg_date`, `msg_type`, `msg_event`, `msg_id`
      and `msg_version` (hl7.py:204-208). */
  datatype Shortcut = Shortcut(date: Field, msgType: Component, event: Component, id: Field, version: Field)

  /** What hl7.py:204-208 need in order not to raise: a single MSH whose
      fields 7, 10 and 12 exist and whose field 9 has components 1 and 2. */
  predicate HasShortcuts(m: Message) {
    && "MSH" in m.segs && m.segs["MSH"].Single?
    && var f := m.segs["MSH"].fields;
    && 7 in f && 9 in f && 10 in f && 12 in f
    && f[9].One? && f[9].value.Comps? && 1 in f[9].value.comps && 2 in f[9].value.comps
  }

  function Shortcuts(m: Message): Shortcut
    requires HasShortcuts(m)
  {
    var f := m.segs["MSH"].fields;
    Shortcut(f[7], f[9].value.comps[1], f[9].value.comps[2], f[10], f[12])
  }

  /** What `parse` returns: the dictionary and its short-cut entries. */
  datatype ParsedMessage = ParsedMessage(msg: Message, shortcut: Shortcut)

  /** `parse(raw)` (hl7.py:17-211): it raises, after building the dictionary,
      when the short-cut entries are missing. */
  function ParseMsg(raw: string): (r: Result<ParsedMessage, ParseError>)
    ensures r.Success? <==> ParseSpec(raw).Success? && HasShortcuts(ParseSpec(raw).value)
    ensures r.Success? ==> r.value.msg == ParseSpec(raw).value
    ensures raw == "" <==> r == Failure(EmptyInput)
  {
    match ParseSpec(raw)
    case Failure(e) => Failure(e)
    case Success(m) =>
      if HasShortcuts(m) then Success(ParsedMessage(m, Shortcuts(m))) else Failure(NoShortcut)
  }

  /** The names of the non-empty segments, in order. */
  function Names(segments: seq<string>): (r: seq<string>)
    ensures forall i :: 0 <= i < |r| ==> r[i] != ""
  {
    if segments == [] then []
    else
      var name := SegmentName(segments[|segments| - 1]);
      Names(segments[..|segments| - 1]) + (if name == "" then [] else [name])
  }

  /** Each name once, in order of first appearance. */
  function FirstSeen(names: seq<string>): seq<string> {
    if names == [] then []
    else
      var r := FirstSeen(names[..|names| - 1]);
      if names[|names| - 1] in r then r else r + [names[|names| - 1]]
  }

  /** The field dictionary one segment line parses to. */
  function SegmentFields(s: string, d: Delims): Fields {
    match ParseSegment(s, d)
    case Failure(_) => map[]
    case Success(sp) => sp.fields
  }

  /** The field dictionary of every segment line, in order. */
  function Parsed(segments: seq<string>, d: Delims): (fs: seq<Fields>)
    ensures |fs| == |segments|
  {
    if segments == [] then []
    else Parsed(segments[..|segments| - 1], d) + [SegmentFields(segments[|segments| - 1], d)]
  }

  /** The entries of `fs` that belong to segment lines named `n`. */
  function Named(segments: seq<string>, fs: seq<Fields>, n: string): seq<Fields>
    requires |fs| == |segments|
  {
    if segments == [] then []
    else
      Named(segments[..|segments| - 1], fs[..|fs| - 1], n)
        + (if n != "" && SegmentName(segments[|segments| - 1]) == n then [fs[|fs| - 1]] else [])
  }

  /** The field dictionaries of the segments named `n`, in encounter order. */
  function OccurrencesOf(segments: seq<string>, n: string, d: Delims): seq<Fields> {
    Named(segments, Parsed(segments, d), n)
  }

  /** The folding invariant on names after the first segments. */
  ghost predicate FoldedNames(segments: seq<string>, st: PState) {
    && st.segList == FirstSeen(Names(segments))
    && (forall n :: n in st.segs <==> n in Names(segments))
  }

  /** The folding invariant on occurrences after the first segments. */
  ghost predicate FoldedOccs(segments: seq<string>, fs: seq<Fields>, st: PState)
    requires |fs| == |segments|
  {
    forall n :: n in st.segs ==>
      && Occs(st.segs[n]) == Named(segments, fs, n)
      && (st.segs[n].Repeated? <==> |Named(segments, fs, n)| > 1)
  }

  /** Segment folding: `segments` lists each name once in first-encounter
      order; a name seen once maps to its field dictionary, a name seen k > 1
      times to the list of its k dictionaries in encounter order. */
  lemma {:induction false} SegmentFolding(segments: seq<string>, d: Delims)
    requires ParseSegments(segments, d).Success?
    ensures FoldedNames(segments, ParseSegments(segments, d).value)
    ensures FoldedOccs(segments, Parsed(segments, d), ParseSegments(segments, d).value)
  {
    NamesFolding(segments, d);
    OccsFolding(segments, d);
  }

  /** `rep` on a segment entry of a parsed message (hl7.py:406-411 applied
      to the entries built at hl7.py:180-196): true exactly when the raw text
      has more than one segment of that name. */
  lemma RepSegmentParsed(raw: string, n: string)
    requires ParseSpec(raw).Success? && n in ParseSpec(raw).value.segs
    ensures var lines := Split(Replace(raw, '\n', '\r'), '\r');
      && Occs(ParseSpec(raw).value.segs[n]) == OccurrencesOf(lines, n, DelimsOf(raw))
      && (RepSegment(ParseSpec(raw).value.segs[n]) <==> |OccurrencesOf(lines, n, DelimsOf(raw))| > 1)
  {
    var lines := Split(Replace(raw, '\n', '\r'), '\r');
    SegmentFolding(lines, DelimsOf(raw));
  }

  lemma {:induction false} NamesFolding(segments: seq<string>, d: Delims)
    requires ParseSegments(segments, d).Success?
    ensures FoldedNames(segments, ParseSegments(segments, d).value)
  {
    if segments != [] {
      var pre := segments[..|segments| - 1];
      var st, sp := SegmentsUnfold(segments, d);
      NamesFolding(pre, d);
      if SegmentName(segments[|segments| - 1]) == "" {
        assert Names(segments) == Names(pre);
      } else {
        FoldAddNames(segments, st, sp);
      }
    }
  }

  lemma {:induction false} OccsFolding(segments: seq<string>, d: Delims)
    requires ParseSegments(segments, d).Success?
    ensures FoldedOccs(segments, Parsed(segments, d), ParseSegments(segments, d).value)
  {
    if segments != [] {
      var pre := segments[..|segments| - 1];
      var s := segments[|segments| - 1];
      var st, sp := SegmentsUnfold(segments, d);
      NamesFolding(pre, d);
      OccsFolding(pre, d);
      var pfs := Parsed(pre, d);
      assert Parsed(segments, d) == pfs + [SegmentFields(s, d)];
      LastSplit(segments);
      if SegmentName(s) == "" {
        FoldSkip(pre, pfs, s, SegmentFields(s, d), st);
      } else {
        assert SegmentFields(s, d) == sp.fields;
        FoldAddOccs(pre, pfs, s, st, sp);
      }
    }
  }

  lemma FoldSkip(pre: seq<string>, pfs: seq<Fields>, s: string, f: Fields, st: PState)
    requires |pfs| == |pre| && FoldedOccs(pre, pfs, st)
    requires SegmentName(s) == ""
    ensures FoldedOccs(pre + [s], pfs + [f], st)
  {
    forall n ensures Named(pre + [s], pfs + [f], n) == Named(pre, pfs, n) {
      assert (pre + [s])[..|pre|] == pre;
      assert (pfs + [f])[..|pfs|] == pfs;
    }
  }

  lemma FoldAddNames(segments: seq<string>, st: PState, sp: SegParse)
    requires segments != [] && FoldedNames(segments[..|segments| - 1], st)
    requires forall n :: n in st.segs <==> n in st.segList
    requires SegmentName(segments[|segments| - 1]) != ""
    ensures FoldedNames(segments, AddSegment(st, SegmentName(segments[|segments| - 1]), sp))
  {
    FoldAddList(segments, st, sp);
    FoldAddKeys(segments, st, sp);
  }

  lemma FoldAddList(segments: seq<string>, st: PState, sp: SegParse)
    requires segments != [] && FoldedNames(segments[..|segments| - 1], st)
    requires forall n :: n in st.segs <==> n in st.segList
    requires SegmentName(segments[|segments| - 1]) != ""
    ensures AddSegment(st, SegmentName(segments[|segments| - 1]), sp).segList == FirstSeen(Names(segments))
  {
    var pre := segments[..|segments| - 1];
    var ns := Names(segments);
    assert ns == Names(pre) + [SegmentName(segments[|segments| - 1])];
    assert ns[..|ns| - 1] == Names(pre);
  }

  lemma FoldAddKeys(segments: seq<string>, st: PState, sp: SegParse)
    requires segments != [] && FoldedNames(segments[..|segments| - 1], st)
    requires forall n :: n in st.segs <==> n in st.segList
    requires SegmentName(segments[|segments| - 1]) != ""
    ensures forall n :: n in AddSegment(st, SegmentName(segments[|segments| - 1]), sp).segs <==> n in Names(segments)
  {
    var pre := segments[..|segments| - 1];
    assert Names(segments) == Names(pre) + [SegmentName(segments[|segments| - 1])];
  }

  lemma FoldAddOccs(pre: seq<string>, pfs: seq<Fields>, s: string, st: PState, sp: SegParse)
    requires |pfs| == |pre| && FoldedNames(pre, st) && FoldedOccs(pre, pfs, st)
    requires forall n :: n in st.segs <==> n in st.segList
    requires SegmentName(s) != ""
    ensures FoldedOccs(pre + [s], pfs + [sp.fields], AddSegment(st, SegmentName(s), sp))
  {
    OccsOther(pre, pfs, s, st, sp);
    OccsSelf(pre, pfs, s, st, sp);
  }

  /** Adding a segment leaves the entries of other names as they were. */
  lemma OccsOther(pre: seq<string>, pfs: seq<Fields>, s: string, st: PState, sp: SegParse)
    requires |pfs| == |pre| && FoldedOccs(pre, pfs, st)
    requires forall n :: n in st.segs <==> n in st.segList
    ensures var st' := AddSegment(st, SegmentName(s), sp);
      forall n :: n in st'.segs && n != SegmentName(s) ==>
        && Occs(st'.segs[n]) == Named(pre + [s], pfs + [sp.fields], n)
        && (st'.segs[n].Repeated? <==> |Named(pre + [s], pfs + [sp.fields], n)| > 1)
  {
    forall n | n != SegmentName(s)
      ensures Named(pre + [s], pfs + [sp.fields], n) == Named(pre, pfs, n)
    {
      assert (pre + [s])[..|pre|] == pre;
      assert (pfs + [sp.fields])[..|pfs|] == pfs;
    }
  }

  /** Adding a segment appends its dictionary to the entry of its name. */
  lemma OccsSelf(pre: seq<string>, pfs: seq<Fields>, s: string, st: PState, sp: SegParse)
    requires |pfs| == |pre| && FoldedNames(pre, st) && FoldedOccs(pre, pfs, st)
    requires forall n :: n in st.segs <==> n in st.segList
    requires SegmentName(s) != ""
    ensures var st' := AddSegment(st, SegmentName(s), sp);
      && Occs(st'.segs[SegmentName(s)]) == Named(pre + [s], pfs + [sp.fields], SegmentName(s))
      && (st'.segs[SegmentName(s)].Repeated? <==> |Named(pre + [s], pfs + [sp.fields], SegmentName(s))| > 1)
  {
    var name := SegmentName(s);
    assert (pre + [s])[..|pre|] == pre;
    assert (pfs + [sp.fields])[..|pfs|] == pfs;
    assert Named(pre + [s], pfs + [sp.fields], name) == Named(pre, pfs, name) + [sp.fields];
    if name !in st.segList {
      NamedEmpty(pre, pfs, name);
    }
  }

  lemma {:induction false} FirstSeenMembers(names: seq<string>)
    ensures forall n :: n in FirstSeen(names) <==> n in names
  {
    if names != [] {
      FirstSeenMembers(names[..|names| - 1]);
      LastSplit(names);
    }
  }

  /** No name is listed twice. */
  lemma {:induction false} FirstSeenDistinct(names: seq<string>)
    ensures forall i, j :: 0 <= i < j < |FirstSeen(names)| ==> FirstSeen(names)[i] != FirstSeen(names)[j]
  {
    if names != [] {
      var pre := names[..|names| - 1];
      FirstSeenDistinct(pre);
    }
  }

  /** The names are listed in order of first appearance: every appearance
      of a later-listed name comes after some appearance of each name listed
      before it. */
  lemma {:induction false} FirstSeenOrder(names: seq<string>)
    ensures forall i, j, p ::
              0 <= i < j < |FirstSeen(names)| && 0 <= p < |names| && names[p] == FirstSeen(names)[j] ==>
                FirstSeen(names)[i] in names[..p]
  {
    if names != [] {
      var k := |names| - 1;
      var pre := names[..k];
      var x := names[k];
      var r := FirstSeen(pre);
      var f := FirstSeen(names);
      FirstSeenOrder(pre);
      FirstSeenMembers(pre);
      forall i, j, p | 0 <= i < j < |f| && 0 <= p < |names| && names[p] == f[j]
        ensures f[i] in names[..p]
      {
        assert i < |r|;
        assert f[i] == r[i];
        if p == k {
          assert f[i] in pre;
          assert names[..p] == pre;
        } else {
          assert names[p] == pre[p] && names[..p] == pre[..p];
          if j == |r| {
            assert false;
          }
        }
      }
    }
  }

  lemma {:induction false} NameAbsent(segments: seq<string>, n: string)
    requires forall j :: 0 <= j < |segments| ==> SegmentName(segments[j]) != n
    ensures n !in Names(segments)
  {
    if segments != [] {
      var k := |segments| - 1;
      assert forall j :: 0 <= j < k ==> segments[..k][j] == segments[j];
      NameAbsent(segments[..k], n);
    }
  }

  lemma {:induction false} NamedEmpty(segments: seq<string>, fs: seq<Fields>, n: string)
    requires |fs| == |segments| && n !in Names(segments)
    ensures Named(segments, fs, n) == []
  {
    if segments != [] {
      NamedEmpty(segments[..|segments| - 1], fs[..|fs| - 1], n);
    }
  }

  /** `structure` has one line per segment line, holding its name and its
      key sequence, when no segment line is blank (hl7.py:74, 182-185). */
  lemma {:induction false} StructureOf(segments: seq<string>, d: Delims)
    requires AllSeps(d)
    requires forall j :: 0 <= j < |segments| ==> SegmentName(segments[j]) != ""
    ensures |ParseSegments(segments, d).value.structure| == |segments|
    ensures forall j :: 0 <= j < |segments| ==>
      ParseSegments(segments, d).value.structure[j]
        == Line(SegmentName(segments[j]), ParseSegment(segments[j], d).value.keys)
  {
    if segments != [] {
      var pre := segments[..|segments| - 1];
      var st, sp := SegmentsUnfold(segments, d);
      forall j | 0 <= j < |pre| ensures SegmentName(pre[j]) != "" {
        assert pre[j] == segments[j];
      }
      StructureOf(pre, d);
      var name := SegmentName(segments[|segments| - 1]);
      assert AddSegment(st, name, sp).structure == st.structure + [Line(name, sp.keys)];
      StructureSnoc(segments, d, st.structure, Line(name, sp.keys));
    }
  }

  lemma StructureSnoc(segments: seq<string>, d: Delims, pre: seq<Line>, last: Line)
    requires AllSeps(d) && segments != []
    requires |pre| == |segments| - 1
    requires forall j :: 0 <= j < |pre| ==>
      pre[j] == Line(SegmentName(segments[..|segments| - 1][j]), ParseSegment(segments[..|segments| - 1][j], d).value.keys)
    requires last == Line(SegmentName(segments[|pre|]), ParseSegment(segments[|pre|], d).value.keys)
    ensures forall j :: 0 <= j < |segments| ==>
      (pre + [last])[j] == Line(SegmentName(segments[j]), ParseSegment(segments[j], d).value.keys)
  {
    forall j | 0 <= j < |pre|
      ensures (pre + [last])[j] == Line(SegmentName(segments[j]), ParseSegment(segments[j], d).value.keys)
    {
      assert segments[..|segments| - 1][j] == segments[j];
    }
  }

  /** Entry `j` of `Parsed` is the dictionary of segment line `j`. */
  lemma {:induction false} ParsedAt(segments: seq<string>, d: Delims, j: nat)
    requires j < |segments|
    ensures Parsed(segments, d)[j] == SegmentFields(segments[j], d)
  {
    if j < |segments| - 1 {
      var pre := segments[..|segments| - 1];
      ParsedAt(pre, d, j);
      assert pre[j] == segments[j];
    }
  }

  /** Going one segment line further adds its dictionary to the entry of its
      own name only. */
  lemma NamedStep(segments: seq<string>, fs: seq<Fields>, j: nat, n: string)
    requires |fs| == |segments| && j < |segments|
    ensures Named(segments[..j + 1], fs[..j + 1], n)
         == Named(segments[..j], fs[..j], n)
            + (if n != "" && SegmentName(segments[j]) == n then [fs[j]] else [])
  {
    var u, v := segments[..j + 1], fs[..j + 1];
    assert u[..j] == segments[..j] && v[..j] == fs[..j];
    assert u[j] == segments[j] && v[j] == fs[j];
  }

  /** The occurrences among the first `j` segment lines come first. */
  lemma {:induction false} NamedPrefix(segments: seq<string>, fs: seq<Fields>, j: nat, n: string)
    requires |fs| == |segments| && j <= |segments|
    ensures Named(segments[..j], fs[..j], n) <= Named(segments, fs, n)
    decreases |segments| - j
  {
    if j < |segments| {
      NamedPrefix(segments, fs, j + 1, n);
      NamedStep(segments, fs, j, n);
    } else {
      assert segments[..j] == segments && fs[..j] == fs;
    }
  }

  /** Once a prefix of the pieces fails, the whole loop fails: `parse`
      raises at the first split on an empty separator. */
  lemma {:induction false} RepetitionsPrefixFails(pieces: seq<string>, i: nat, d: Delims)
    requires i <= |pieces| && ParseRepetitions(pieces[..i], d).Failure?
    ensures ParseRepetitions(pieces, d).Failure?
  {
    if i < |pieces| {
      var pre := pieces[..|pieces| - 1];
      assert pre[..i] == pieces[..i];
      RepetitionsPrefixFails(pre, i, d);
    } else {
      assert pieces[..i] == pieces;
    }
  }

  lemma {:induction false} FieldsPrefixFails(name: string, texts: seq<string>, j: nat, d: Delims)
    requires j <= |texts| && ParseFields(name, texts[..j], d).Failure?
    ensures ParseFields(name, texts, d).Failure?
  {
    if j < |texts| {
      var pre := texts[..|texts| - 1];
      assert pre[..j] == texts[..j];
      FieldsPrefixFails(name, pre, j, d);
    } else {
      assert texts[..j] == texts;
    }
  }

  lemma {:induction false} SegmentsPrefixFail(segments: seq<string>, i: nat, d: Delims)
    requires i <= |segments| && ParseSegments(segments[..i], d).Failure?
    ensures ParseSegments(segments, d).Failure?
  {
    if i < |segments| {
      var pre := segments[..|segments| - 1];
      assert pre[..i] == segments[..i];
      SegmentsPrefixFail(pre, i, d);
    } else {
      assert segments[..i] == segments;
    }
  }

  /** The subcomponent loop (hl7.py:112-119, 148-155, 163-172). */
  method SubcomponentsOf(parts: seq<string>) returns (m: map<nat, string>)
    ensures m == Indexed(parts)
  {
    m := map[];
    var subCount := 1;
    while subCount <= |parts|
      invariant 1 <= subCount <= |parts| + 1
      invariant m == Indexed(parts[..subCount - 1])
    {
      assert parts[..subCount][..subCount - 1] == parts[..subCount - 1];
      m := m[subCount := parts[subCount - 1]];
      subCount := subCount + 1;
    }
    assert parts[..|parts|] == parts;
  }

  /** The component loop (hl7.py:102-123, 138-159). */
  method ComponentsOf(parts: seq<string>, sub: Sep) returns (r: Result<map<nat, Component>, ParseError>)
    ensures r == ParseComponents(parts, sub)
  {
    var m: map<nat, Component> := map[];
    var comCount := 1;
    while comCount <= |parts|
      invariant 1 <= comCount <= |parts| + 1
      invariant ParseComponents(parts[..comCount - 1], sub) == Success(m)
    {
      assert parts[..comCount][..comCount - 1] == parts[..comCount - 1];
      var component := parts[comCount - 1];
      if Has(component, sub) {
        if sub == [] {
          return Failure(EmptySeparator);
        }
        var subs := SubcomponentsOf(Split(component, sub[0]));
        m := m[comCount := Subs(subs)];
      } else {
        m := m[comCount := CText(component)];
      }
      comCount := comCount + 1;
    }
    assert parts[..|parts|] == parts;
    return Success(m);
  }

  /** The repetition loop (hl7.py:93-131). */
  method RepetitionsOf(repetitions: seq<string>, d: Delims) returns (r: Result<seq<Value>, ParseError>)
    ensures r == ParseRepetitions(repetitions, d)
  {
    var fieldList: seq<Value> := [];
    var i := 0;
    while i < |repetitions|
      invariant 0 <= i <= |repetitions|
      invariant ParseRepetitions(repetitions[..i], d) == Success(fieldList)
    {
      assert repetitions[..i + 1][..i] == repetitions[..i];
      var repetition := repetitions[i];
      var v: Value;
      if Has(repetition, d.com) {
        if d.com == [] {
          RepetitionsPrefixFails(repetitions, i + 1, d);
          return Failure(EmptySeparator);
        }
        var cs := ComponentsOf(Split(repetition, d.com[0]), d.sub);
        if cs.Failure? {
          RepetitionsPrefixFails(repetitions, i + 1, d);
          return Failure(EmptySeparator);
        }
        v := Comps(cs.value);
      } else {
        v := Text(repetition);
      }
      fieldList := fieldList + [v];
      i := i + 1;
    }
    assert repetitions[..|repetitions|] == repetitions;
    return Success(fieldList);
  }

  /** One field (hl7.py:92-174). */
  method FieldOf(field: string, msh2: bool, d: Delims) returns (r: Result<Field, ParseError>)
    ensures r == ParseField(field, msh2, d)
  {
    if Has(field, d.rep) && !msh2 {
      if d.rep == [] {
        return Failure(EmptySeparator);
      }
      var vs := RepetitionsOf(Split(field, d.rep[0]), d);
      if vs.Failure? {
        return Failure(EmptySeparator);
      }
      return Success(Reps(vs.value));
    } else if Has(field, d.com) && !msh2 {
      if d.com == [] {
        return Failure(EmptySeparator);
      }
      var cs := ComponentsOf(Split(field, d.com[0]), d.sub);
      if cs.Failure? {
        return Failure(EmptySeparator);
      }
      return Success(One(Comps(cs.value)));
    } else if Has(field, d.sub) && !msh2 {
      if d.sub == [] {
        return Failure(EmptySeparator);
      }
      var subs := SubcomponentsOf(Split(field, d.sub[0]));
      return Success(One(Comps(map[1 := Subs(subs)])));
    }
    return Success(One(Text(field)));
  }

  /** The field loop of one segment (hl7.py:71-179), with the `fields`
      list of hl7.py:177 kept as the key sequence it ends up as. */
  method SegmentOf(segment: string, d: Delims) returns (r: Result<SegParse, ParseError>)
    ensures r == ParseSegment(segment, d)
  {
    var seg := SegmentName(segment);
    if d.fld == [] {
      return Failure(EmptySeparator);
    }
    var fields := Split(SegmentBody(segment), d.fld[0]);
    r := FieldsOf(seg, fields, d);
  }

  /** The loop over the pieces of one segment (hl7.py:71-179). */
  method FieldsOf(seg: string, fields: seq<string>, d: Delims) returns (r: Result<SegParse, ParseError>)
    ensures r == ParseBody(seg, fields, d)
  {
    var msg: Fields := if seg == "MSH" then map[1 := One(Text(d.fld))] else map[];
    var fldCount := FirstField(seg);
    var keys: seq<nat> := [];
    var j := 0;
    FieldsStart(seg, fields, d);
    while j < |fields|
      invariant 0 <= j <= |fields|
      invariant fldCount == FirstField(seg) + j
      invariant ParseFields(seg, fields[..j], d) == Success(msg)
      invariant keys == KeysOf(seg, fields[..j])
    {
      var field := fields[j];
      var f := FieldAt(seg, fields, j, d, msg, keys, fldCount);
      if f.Failure? {
        return Failure(EmptySeparator);
      }
      msg := msg[fldCount := f.value];
      keys := Reindex(keys, seg, field, fldCount);
      fldCount := fldCount + 1;
      j := j + 1;
    }
    FieldsDone(seg, fields, j, d, msg, keys);
    return Success(SegParse(msg, keys));
  }

  /** Field `k` of the segment, parsed by the loop body (hl7.py:92-174),
      and what its outcome makes of the segment so far. */
  method FieldAt(name: string, texts: seq<string>, j: nat, d: Delims, fields: Fields, keys: seq<nat>, k: nat)
    returns (f: Result<Field, ParseError>)
    requires j < |texts| && k == FirstField(name) + j
    requires ParseFields(name, texts[..j], d) == Success(fields)
    requires keys == KeysOf(name, texts[..j])
    ensures f.Failure? ==> ParseBody(name, texts, d) == Failure(EmptySeparator)
    ensures f.Success? ==> ParseFields(name, texts[..j + 1], d) == Success(fields[k := f.value])
    ensures Reindex(keys, name, texts[j], k) == KeysOf(name, texts[..j + 1])
  {
    f := FieldOf(texts[j], name == "MSH" && k == 2, d);
    FieldsAdvance(name, texts, j, d, fields, keys, k, texts[j], f);
  }

  /** One pass of the field loop: a failing field fails the segment, a
      parsed one extends the dictionary and the key sequence. */
  lemma FieldsAdvance(name: string, texts: seq<string>, j: nat, d: Delims, fields: Fields, keys: seq<nat>,
                      k: nat, t: string, f: Result<Field, ParseError>)
    requires j < |texts| && k == FirstField(name) + j && t == texts[j]
    requires ParseFields(name, texts[..j], d) == Success(fields)
    requires keys == KeysOf(name, texts[..j])
    requires f == ParseField(t, name == "MSH" && k == 2, d)
    ensures f.Failure? ==> ParseBody(name, texts, d) == Failure(EmptySeparator)
    ensures f.Success? ==> ParseFields(name, texts[..j + 1], d) == Success(fields[k := f.value])
    ensures Reindex(keys, name, t, k) == KeysOf(name, texts[..j + 1])
  {
    if f.Failure? {
      FieldsFailStep(name, texts, j, d, fields, k);
    } else {
      FieldsStep(name, texts, j, d, fields, k, t, f.value);
    }
    KeysStepAt(name, texts, j, keys, k, t);
  }

  lemma FieldsFailStep(name: string, texts: seq<string>, j: nat, d: Delims, fields: Fields, k: nat)
    requires j < |texts| && k == FirstField(name) + j
    requires ParseFields(name, texts[..j], d) == Success(fields)
    requires ParseField(texts[j], name == "MSH" && k == 2, d).Failure?
    ensures ParseBody(name, texts, d) == Failure(EmptySeparator)
  {
    FieldsFailAt(name, texts, j, d, fields, k);
    FieldsPrefixFails(name, texts, j + 1, d);
  }

  lemma FieldsFailAt(name: string, texts: seq<string>, j: nat, d: Delims, fields: Fields, k: nat)
    requires j < |texts| && k == FirstField(name) + j
    requires ParseFields(name, texts[..j], d) == Success(fields)
    requires ParseField(texts[j], name == "MSH" && k == 2, d).Failure?
    ensures ParseFields(name, texts[..j + 1], d).Failure?
  {
    var t := texts[..j + 1];
    assert |t| - 1 == j;
    assert t[..j] == texts[..j];
    assert t[j] == texts[j];
  }

  lemma FieldsStart(name: string, texts: seq<string>, d: Delims)
    ensures ParseFields(name, texts[..0], d) == Success(if name == "MSH" then map[1 := One(Text(d.fld))] else map[])
    ensures KeysOf(name, texts[..0]) == []
  {
    assert texts[..0] == [];
  }

  lemma FieldsDone(name: string, texts: seq<string>, j: nat, d: Delims, fields: Fields, keys: seq<nat>)
    requires j == |texts|
    requires ParseFields(name, texts[..j], d) == Success(fields)
    requires keys == KeysOf(name, texts[..j])
    ensures ParseBody(name, texts, d) == Success(SegParse(fields, keys))
  {
    assert texts[..j] == texts;
  }

  lemma FieldsStep(name: string, texts: seq<string>, j: nat, d: Delims, fields: Fields, k: nat, t: string, f: Field)
    requires j < |texts| && k == FirstField(name) + j && t == texts[j]
    requires ParseFields(name, texts[..j], d) == Success(fields)
    requires ParseField(t, name == "MSH" && k == 2, d) == Success(f)
    ensures ParseFields(name, texts[..j + 1], d) == Success(fields[k := f])
  {
    var u := texts[..j + 1];
    assert |u| - 1 == j;
    assert u[..j] == texts[..j];
    assert u[j] == t;
    assert ParseFields(name, u, d) == Success(fields[k := f]);
  }

  lemma KeysStepAt(name: string, texts: seq<string>, j: nat, keys: seq<nat>, k: nat, t: string)
    requires j < |texts| && k == FirstField(name) + j && t == texts[j]
    requires keys == KeysOf(name, texts[..j])
    ensures Reindex(keys, name, t, k) == KeysOf(name, texts[..j + 1])
  {
    var u := texts[..j + 1];
    assert u[..j] == texts[..j];
  }

  /** `parse(raw)` (hl7.py:17-201), without the short-cut entries. */
  method Parse(raw: string) returns (r: Result<ParsedMessage, ParseError>)
    ensures r == ParseMsg(raw)
  {
    if raw == "" {
      return Failure(EmptyInput);
    }
    var d := DelimsOf(raw);
    var text := Replace(raw, '\n', '\r');
    var segments := Split(text, '\r');
    var st := PState(map[], [], []);
    var i := 0;
    while i < |segments|
      invariant 0 <= i <= |segments|
      invariant ParseSegments(segments[..i], d) == Success(st)
    {
      var segment := segments[i];
      var seg := SegmentName(segment);
      if seg != "" {
        var sp := SegmentOf(segment, d);
        if sp.Failure? {
          SegmentsFailStep(segments, i, d, st);
          return Failure(EmptySeparator);
        }
        SegmentsStep(segments, i, d, st, sp.value);
        st := AddSegment(st, seg, sp.value);
      } else {
        SegmentsSkipStep(segments, i, d, st);
      }
      i := i + 1;
    }
    SegmentsDone(raw, segments, i, d, st);
    var m := Message(Stored(st.segs), st.structure, text, st.segList, "");
    if !HasShortcuts(m) {
      return Failure(NoShortcut);
    }
    return Success(ParsedMessage(m, Shortcuts(m)));
  }

  lemma SegmentsStep(segments: seq<string>, i: nat, d: Delims, st: PState, sp: SegParse)
    requires i < |segments| && SegmentName(segments[i]) != ""
    requires ParseSegments(segments[..i], d) == Success(st)
    requires ParseSegment(segments[i], d) == Success(sp)
    ensures ParseSegments(segments[..i + 1], d) == Success(AddSegment(st, SegmentName(segments[i]), sp))
  {
    var u := segments[..i + 1];
    assert |u| - 1 == i;
    assert u[..i] == segments[..i];
    assert u[i] == segments[i];
    assert ParseSegments(u, d) == Success(AddSegment(st, SegmentName(u[i]), sp));
  }

  lemma SegmentsSkipStep(segments: seq<string>, i: nat, d: Delims, st: PState)
    requires i < |segments| && SegmentName(segments[i]) == ""
    requires ParseSegments(segments[..i], d) == Success(st)
    ensures ParseSegments(segments[..i + 1], d) == Success(st)
  {
    var u := segments[..i + 1];
    assert u[..i] == segments[..i];
    assert u[i] == segments[i];
  }

  lemma SegmentsFailStep(segments: seq<string>, i: nat, d: Delims, st: PState)
    requires i < |segments| && SegmentName(segments[i]) != ""
    requires ParseSegments(segments[..i], d) == Success(st)
    requires ParseSegment(segments[i], d).Failure?
    ensures ParseSegments(segments, d) == Failure(EmptySeparator)
  {
    var u := segments[..i + 1];
    assert u[..i] == segments[..i];
    assert u[i] == segments[i];
    assert ParseSegments(u, d).Failure?;
    SegmentsPrefixFail(segments, i + 1, d);
  }

  lemma SegmentsDone(raw: string, segments: seq<string>, i: nat, d: Delims, st: PState)
    requires raw != "" && d == DelimsOf(raw) && segments == Split(Replace(raw, '\n', '\r'), '\r')
    requires i == |segments| && ParseSegments(segments[..i], d) == Success(st)
    ensures ParseSpec(raw) == Success(Message(Stored(st.segs), st.structure, Replace(raw, '\n', '\r'), st.segList, ""))
  {
    assert segments[..i] == segments;
  }
}
