/**
 * `toString` (hl7.py:217-401): the dictionary back to HL7 text, walking the
 * `structure` skeleton line by line and each field's nested entries in key
 * order (the helper `order`, hl7.py:226-235).
 */
module Hl7Serialize {
  import opened Wrappers
  import opened Text
  import opened Hl7Model

  // ---------------------------------------------------------------------
  // Key order
  // ---------------------------------------------------------------------

  lemma {:induction false} Least(s: set<nat>) returns (m: nat)
    requires s != {}
    ensures m in s && forall x :: x in s ==> m <= x
  {
    var y :| y in s;
    var r := s - {y};
    if r == {} {
      m := y;
      forall x | x in s ensures y <= x {
        assert x !in r;
      }
    } else {
      var n := Least(r);
      m := if y < n then y else n;
      forall x | x in s ensures m <= x {
        if x != y {
          assert x in r;
        }
      }
    }
  }

  lemma MinExists(s: set<nat>)
    requires s != {}
    ensures exists m :: m in s && forall x :: x in s ==> m <= x
  {
    var m := Least(s);
  }

  /** The least key of a non-empty key set. */
  function MinOf(s: set<nat>): (m: nat)
    requires s != {}
    ensures m in s && forall x :: x in s ==> m <= x
  {
    MinExists(s);
    var m :| m in s && forall x :: x in s ==> m <= x;
    m
  }

  /** The keys of a dictionary in ascending numeric order, which is what
      `order` yields once it has read the index off each key name. */
  function SortedKeys(s: set<nat>): seq<nat>
    decreases |s|
  {
    if s == {} then []
    else [MinOf(s)] + SortedKeys(s - {MinOf(s)})
  }

  predicate Increasing(l: seq<nat>) {
    forall i, j :: 0 <= i < j < |l| ==> l[i] < l[j]
  }

  /** `order` lists every key exactly once, in strictly increasing order. */
  lemma {:induction false} SortedKeysOrdered(s: set<nat>)
    ensures Increasing(SortedKeys(s))
    ensures forall x :: x in SortedKeys(s) <==> x in s
    ensures |SortedKeys(s)| == |s|
    decreases |s|
  {
    if s != {} {
      var m := MinOf(s);
      var t := SortedKeys(s - {m});
      SortedKeysOrdered(s - {m});
      assert SortedKeys(s) == [m] + t;
      IncreasingCons(m, t, s - {m});
    }
  }

  lemma IncreasingCons(m: nat, t: seq<nat>, r: set<nat>)
    requires Increasing(t) && forall x :: x in t <==> x in r
    requires forall x :: x in r ==> m < x
    ensures Increasing([m] + t)
  {
    var l := [m] + t;
    forall i, j | 0 <= i < j < |l| ensures l[i] < l[j] {
      if i == 0 {
        assert l[j] == t[j - 1] && t[j - 1] in t;
      } else {
        assert l[i] == t[i - 1] && l[j] == t[j - 1];
      }
    }
  }

  /** Sorting is unique: any strictly increasing listing of the keys is the
      one `order` produces. */
  lemma {:induction false} SortedKeysUnique(l: seq<nat>, s: set<nat>)
    requires Increasing(l)
    requires forall x :: x in l <==> x in s
    ensures l == SortedKeys(s)
    decreases |l|
  {
    if l == [] {
      assert s == {};
    } else {
      assert l[0] in s;
      var m := MinOf(s);
      assert l[0] == m by {
        assert m in l;
        var k :| 0 <= k < |l| && l[k] == m;
        assert l[0] in s;
      }
      assert forall x :: x in l[1..] <==> x in s - {m} by {
        forall x ensures x in l[1..] <==> x in s - {m} {
          if x in l[1..] {
            var k :| 1 <= k < |l| && l[k] == x;
            assert l[0] < l[k];
          }
          if x in s - {m} {
            var k :| 0 <= k < |l| && l[k] == x;
            assert l[k] in l[1..] by { assert l[k] == l[1..][k - 1]; }
          }
        }
      }
      SortedKeysUnique(l[1..], s - {m});
    }
  }

  /** A dictionary keyed `1..n` (what `parse` builds) comes back in parse
      order. */
  lemma SortedKeysRange(s: set<nat>, n: nat)
    requires forall k :: k in s <==> 1 <= k <= n
    ensures |SortedKeys(s)| == n
    ensures forall i :: 0 <= i < n ==> SortedKeys(s)[i] == i + 1
  {
    var l := seq(n, i => i + 1);
    forall x: nat ensures x in l <==> x in s {
      if 1 <= x <= n {
        assert l[x - 1] == x;
      }
    }
    SortedKeysUnique(l, s);
  }

  /** The key pattern `[A-Z0-9]{3}.` every key's segment prefix must match. */
  predicate NameMatches(name: string) {
    |name| == 3 && forall i :: 0 <= i < 3 ==> ('A' <= name[i] <= 'Z' || '0' <= name[i] <= '9')
  }

  /** A name the key pattern accepts holds no `|` and is not `raw`. */
  lemma NameMatchesPlain(name: string)
    requires NameMatches(name)
    ensures '|' !in name && name != "raw"
  {
    assert 'A' <= name[0] <= 'Z' || '0' <= name[0] <= '9';
  }

  /** `order(d, regex)` on a dictionary of segment `name`: it fails (the
      match object is `None`) as soon as it meets a key, when the name does
      not fit the pattern. */
  function OrderSpec<V>(d: map<nat, V>, name: string): Option<seq<nat>> {
    if d.Keys != {} && !NameMatches(name) then None else Some(SortedKeys(d.Keys))
  }

  /** `order` (hl7.py:226-235): reads each key's index, then lists the keys
      by ascending index. */
  method Order<V>(d: map<nat, V>, name: string) returns (r: Option<seq<nat>>)
    ensures r == OrderSpec(d, name)
    ensures r.Some? ==> Increasing(r.value) && forall k :: k in r.value <==> k in d
  {
    if d.Keys != {} && !NameMatches(name) {
      return None;
    }
    var rest := d.Keys;
    var l: seq<nat> := [];
    while rest != {}
      invariant l + SortedKeys(rest) == SortedKeys(d.Keys)
      decreases |rest|
    {
      MinExists(rest);
      var m :| m in rest && forall x :: x in rest ==> m <= x;
      assert m == MinOf(rest);
      l := l + [m];
      rest := rest - {m};
    }
    assert l == SortedKeys(d.Keys);
    SortedKeysOrdered(d.Keys);
    return Some(l);
  }

  // ---------------------------------------------------------------------
  // Rendering one field
  // ---------------------------------------------------------------------

  /** The separators `toString` reads back from `MSH.1` and `MSH.2`
      (hl7.py:241-245); the escape character is read but never used. */
  datatype Seps = Seps(fld: string, com: string, rep: string, sub: string)

  /** The entries of `m` under the keys `ks`, in that order. */
  function Pick<V>(ks: seq<nat>, m: map<nat, V>): (r: seq<V>)
    requires forall k :: k in ks ==> k in m
    ensures |r| == |ks|
  {
    if ks == [] then []
    else
      assert forall k :: k in ks[..|ks| - 1] ==> k in ks;
      Pick(ks[..|ks| - 1], m) + [m[ks[|ks| - 1]]]
  }

  lemma PickStep<V>(ks: seq<nat>, m: map<nat, V>, i: nat)
    requires forall k :: k in ks ==> k in m
    requires i < |ks|
    ensures forall k :: k in ks[..i] ==> k in m
    ensures Pick(ks[..i + 1], m) == Pick(ks[..i], m) + [m[ks[i]]]
  {
    var u := ks[..i + 1];
    assert u[..i] == ks[..i];
    assert u[i] == ks[i];
    assert forall k :: k in ks[..i] ==> k in ks;
  }

  /** The entries of a dictionary in key order. */
  function InOrder<V>(m: map<nat, V>): (r: seq<V>)
  {
    SortedKeysOrdered(m.Keys);
    Pick(SortedKeys(m.Keys), m)
  }

  /** A subcomponent dictionary: its strings in key order, joined by the
      subcomponent separator (hl7.py:289-292). */
  function SubsText(subs: map<nat, string>, sub: string): string {
    Join(InOrder(subs), sub)
  }

  function ComponentText(c: Component, sub: string): string {
    match c
    case CText(t) => t
    case Subs(m) => SubsText(m, sub)
  }

  function ComponentTexts(cs: seq<Component>, sub: string): (r: seq<string>)
    ensures |r| == |cs|
  {
    if cs == [] then []
    else ComponentTexts(cs[..|cs| - 1], sub) + [ComponentText(cs[|cs| - 1], sub)]
  }

  lemma ComponentTextsStep(cs: seq<Component>, c: Component, sub: string)
    ensures ComponentTexts(cs + [c], sub) == ComponentTexts(cs, sub) + [ComponentText(c, sub)]
  {
    assert (cs + [c])[..|cs|] == cs;
  }

  /** A field value or one repetition: its text, or its components in key
      order joined by the component separator. */
  function ValueText(v: Value, s: Seps): string {
    match v
    case Text(t) => t
    case Comps(cs) => Join(ComponentTexts(InOrder(cs), s.sub), s.com)
  }

  function ValueTexts(vs: seq<Value>, s: Seps): (r: seq<string>)
    ensures |r| == |vs|
  {
    if vs == [] then []
    else ValueTexts(vs[..|vs| - 1], s) + [ValueText(vs[|vs| - 1], s)]
  }

  lemma ValueTextsStep(vs: seq<Value>, x: nat, s: Seps)
    requires x < |vs|
    ensures ValueTexts(vs[..x + 1], s) == ValueTexts(vs[..x], s) + [ValueText(vs[x], s)]
  {
    var u := vs[..x + 1];
    assert u[..x] == vs[..x];
    assert u[x] == vs[x];
  }

  /** A field: one value, or its repetitions joined by the repetition
      separator. */
  function FieldText(f: Field, s: Seps): string {
    match f
    case One(v) => ValueText(v, s)
    case Reps(vs) => Join(ValueTexts(vs, s), s.rep)
  }

  /** A value `order` is called on with at least one key. */
  predicate HasDict(v: Value) {
    v.Comps? && v.comps.Keys != {}
  }

  predicate FieldHasDict(f: Field) {
    match f
    case One(v) => HasDict(v)
    case Reps(vs) => exists i :: 0 <= i < |vs| && HasDict(vs[i])
  }

  /** What rendering one field of segment `name` yields: the key pattern
      fails exactly when the field holds a non-empty dictionary and the name
      does not fit it; the subcomponent dictionaries inside are reached only
      through such a dictionary. */
  function RenderFieldSpec(f: Field, name: string, s: Seps): Option<string> {
    if FieldHasDict(f) && !NameMatches(name) then None else Some(FieldText(f, s))
  }

  /** hl7.py:383-386 (and its copies at 293-296, 318-321, 358-361): the
      subcomponents in key order. */
  method RenderSubs(subs: map<nat, string>, name: string, sub: string) returns (r: Option<string>)
    ensures r == if subs.Keys != {} && !NameMatches(name) then None else Some(SubsText(subs, sub))
  {
    var o := Order(subs, name);
    if o.None? {
      return None;
    }
    var ks := o.value;
    var list: seq<string> := [];
    for i := 0 to |ks|
      invariant list == Pick(ks[..i], subs)
    {
      PickStep(ks, subs, i);
      list := list + [subs[ks[i]]];
    }
    assert ks[..|ks|] == ks;
    return Some(Join(list, sub));
  }

  /** One value or repetition (hl7.py:377-392, and per repetition 352-369): its text, or
      its components in key order, each a string or a subcomponent
      dictionary. */
  method RenderValue(v: Value, name: string, s: Seps) returns (r: Option<string>)
    ensures r == if HasDict(v) && !NameMatches(name) then None else Some(ValueText(v, s))
  {
    if v.Text? {
      return Some(v.text);
    }
    var cs := v.comps;
    var o := Order(cs, name);
    if o.None? {
      return None;
    }
    var ks := o.value;
    var list: seq<string> := [];
    for i := 0 to |ks|
      invariant list == ComponentTexts(Pick(ks[..i], cs), s.sub)
    {
      var c := cs[ks[i]];
      var text: string;
      if c.Subs? {
        assert NameMatches(name);
        var q := RenderSubs(c.subs, name, s.sub);
        text := q.value;
      } else {
        text := c.text;
      }
      PickStep(ks, cs, i);
      ComponentTextsStep(Pick(ks[..i], cs), c, s.sub);
      list := list + [text];
    }
    assert ks[..|ks|] == ks;
    return Some(Join(list, s.com));
  }

  /** One field (hl7.py:347-392, and its copy at 282-327): a list is
      rendered repetition by repetition and joined by the repetition
      separator. */
  method RenderField(f: Field, name: string, s: Seps) returns (r: Option<string>)
    ensures r == RenderFieldSpec(f, name, s)
  {
    if f.One? {
      r := RenderValue(f.value, name, s);
      return;
    }
    var vs := f.reps;
    var list: seq<string> := [];
    for x := 0 to |vs|
      invariant list == ValueTexts(vs[..x], s)
      invariant NameMatches(name) || forall j :: 0 <= j < x ==> !HasDict(vs[j])
    {
      var t := RenderValue(vs[x], name, s);
      if t.None? {
        assert HasDict(vs[x]);
        return None;
      }
      ValueTextsStep(vs, x, s);
      list := list + [t.value];
    }
    assert vs[..|vs|] == vs;
    return Some(Join(list, s.rep));
  }

  // ---------------------------------------------------------------------
  // Walking the structure skeleton
  // ---------------------------------------------------------------------

  /** The separators read from the MSH entry; `None` where the lookups
      raise (no MSH entry, a list under MSH, a missing or non-text MSH.1 or
      MSH.2). */
  function SepsOf(m: Message): (r: Option<Seps>)
    ensures r.Some? ==> |r.value.com| <= 1 && |r.value.rep| <= 1 && |r.value.sub| <= 1
  {
    if "MSH" !in m.segs || !m.segs["MSH"].Single? then None
    else
      var f := m.segs["MSH"].fields;
      if 1 !in f || 2 !in f || !f[1].One? || !f[1].value.Text? || !f[2].One? || !f[2].value.Text? then None
      else
        var e := f[2].value.text;
        Some(Seps(f[1].value.text, Slice(e, 0, 1), Slice(e, 1, 2), Slice(e, 3, 4)))
  }

  /** The key names of one structure line. */
  function KeyNames(name: string, keys: seq<nat>): (r: seq<string>)
    ensures |r| == |keys|
  {
    seq(|keys|, i requires 0 <= i < |keys| => KeyName(name, keys[i]))
  }

  /** A line of the `structure` string as `parse` writes it (hl7.py:74 and
      182-185), without its return character. */
  function StructureLine(line: Line): string {
    line.name + "|" + Join(KeyNames(line.name, line.keys), "|")
  }

  /** `seg[0:3]`, what `toString` writes for the segment name: the name
      itself when it has three characters, but a shorter name is followed
      by `|` and the start of its first key name. */
  function Head(line: Line): (r: string)
    ensures |line.name| >= 3 ==> r == line.name[..3]
    ensures |line.name| == 2 ==> r == line.name + "|"
    ensures |line.name| == 1 && line.keys != [] ==> r == line.name + "|" + line.name
  {
    HeadOfStructureLine(line);
    Slice(StructureLine(line), 0, 3)
  }

  lemma HeadOfStructureLine(line: Line)
    ensures line.keys != [] ==> line.name + "|" + KeyName(line.name, line.keys[0]) <= StructureLine(line)
    ensures line.name + "|" <= StructureLine(line)
  {
    if line.keys != [] {
      var ks := KeyNames(line.name, line.keys);
      assert ks[0] == KeyName(line.name, line.keys[0]);
      assert ks[0] <= Join(ks, "|");
    }
  }

  /** The fields of one occurrence under the keys of its structure line,
      each written after the field separator; `None` on a missing key or a
      failing key pattern. */
  function SegmentText(fs: Fields, keys: seq<nat>, name: string, s: Seps): Option<string> {
    if keys == [] then Some("")
    else
      var n := |keys| - 1;
      match SegmentText(fs, keys[..n], name, s)
      case None => None
      case Some(t) =>
        if keys[n] !in fs then None
        else
          match RenderFieldSpec(fs[keys[n]], name, s)
          case None => None
          case Some(x) => Some(t + s.fld + x)
  }

  /** The dictionary occurrence `i` of an entry names (any `i` for a single
      occurrence, as the source does not index it). */
  function Occurrence(e: SegEntry, i: nat): Fields {
    match e
    case Single(fs) => fs
    case Repeated(o) => if i < |o| then o[i] else map[]
  }

  /** One structure line written out for occurrence `i` of its entry. A
      line without keys still splits into its name and one empty piece
      (hl7.py:260), and looking that piece up raises (hl7.py:282 and 347). */
  function LineText(e: SegEntry, i: nat, line: Line, s: Seps): (r: Option<string>)
    ensures line.keys == [] ==> r.None?
    ensures e.Repeated? && i >= |e.occs| ==> r.None?
  {
    if line.keys == [] || (e.Repeated? && i >= |e.occs|) then None
    else
      match SegmentText(Occurrence(e, i), line.keys, line.name, s)
      case None => None
      case Some(t) => Some(Head(line) + t + "\r")
  }

  /** What `seg_dict` is keyed by: the source uses the whole structure
      line; the evident intent is one counter per segment name. */
  datatype Tally = ByStructureLine | BySegmentName

  function TallyKey(tally: Tally, line: Line): Line {
    if tally == ByStructureLine then line else Line(line.name, [])
  }

  /** The output so far and `seg_dict`. */
  datatype Walk = Walk(out: string, seen: map<Line, nat>)

  /** One iteration of the loop over the structure (hl7.py:254-398). The
      source finds the entry by the first `|`-piece of the structure line
      (hl7.py:260-262), so a name holding `|` is cut short there: in a
      dictionary `parse` builds, the prefix is not a segment name, or the
      piece after it is not one of that segment's keys, and the lookups at
      hl7.py:262, 282 or 347 raise. */
  function LineStep(m: Message, s: Seps, tally: Tally, w: Walk, line: Line): Option<Walk> {
    if line.name !in m.segs || '|' in line.name then None
    else
      var e := m.segs[line.name];
      var key := TallyKey(tally, line);
      var i := if e.Repeated? && key in w.seen then w.seen[key] + 1 else 0;
      match LineText(e, i, line, s)
      case None => None
      case Some(t) => Some(Walk(w.out + t, if e.Repeated? then w.seen[key := i] else w.seen))
  }

  function WalkLines(m: Message, s: Seps, tally: Tally, lines: seq<Line>): Option<Walk> {
    if lines == [] then Some(Walk("", map[]))
    else
      var n := |lines| - 1;
      match WalkLines(m, s, tally, lines[..n])
      case None => None
      case Some(w) => LineStep(m, s, tally, w, lines[n])
  }

  function ToStringWith(m: Message, tally: Tally): Option<string> {
    match SepsOf(m)
    case None => None
    case Some(s) =>
      match WalkLines(m, s, tally, m.structure)
      case None => None
      case Some(w) => Some(w.out)
  }

  /** `toString` as written (hl7.py:217-401); `None` where it raises. */
  function ToStringSpec(m: Message): Option<string> {
    ToStringWith(m, ByStructureLine)
  }

  /** `toString` with one occurrence counter per segment name. */
  function ToStringFixed(m: Message): Option<string> {
    ToStringWith(m, BySegmentName)
  }

  lemma SegmentStep(fs: Fields, keys: seq<nat>, k: nat, name: string, s: Seps, acc: string)
    requires k < |keys|
    requires SegmentText(fs, keys[..k], name, s) == Some(acc)
    ensures SegmentText(fs, keys[..k + 1], name, s)
         == if keys[k] !in fs then None
            else match RenderFieldSpec(fs[keys[k]], name, s)
              case None => None
              case Some(x) => Some(acc + s.fld + x)
  {
    var u := keys[..k + 1];
    assert u[..k] == keys[..k];
    assert u[k] == keys[k];
  }

  lemma {:induction false} SegmentPrefixFails(fs: Fields, keys: seq<nat>, k: nat, name: string, s: Seps)
    requires k <= |keys|
    requires SegmentText(fs, keys[..k], name, s) == None
    ensures SegmentText(fs, keys, name, s) == None
    decreases |keys| - k
  {
    if k < |keys| {
      var u := keys[..k + 1];
      assert u[..k] == keys[..k];
      SegmentPrefixFails(fs, keys, k + 1, name, s);
    } else {
      assert keys[..k] == keys;
    }
  }

  /** The field loop of one structure line (hl7.py:342-398 for a single
      entry, 277-336 for a list entry at occurrence `i`). */
  method RenderLine(e: SegEntry, i: nat, line: Line, s: Seps) returns (r: Option<string>)
    ensures r == LineText(e, i, line, s)
  {
    var head := Head(line);
    if line.keys == [] {
      return None;
    }
    var acc := "";
    for k := 0 to |line.keys|
      invariant SegmentText(Occurrence(e, i), line.keys[..k], line.name, s) == Some(acc)
    {
      if e.Repeated? && i >= |e.occs| {
        return None;
      }
      var fs := if e.Single? then e.fields else e.occs[i];
      var key := line.keys[k];
      SegmentStep(fs, line.keys, k, line.name, s, acc);
      if key !in fs {
        SegmentPrefixFails(fs, line.keys, k + 1, line.name, s);
        return None;
      }
      var f := RenderField(fs[key], line.name, s);
      if f.None? {
        SegmentPrefixFails(fs, line.keys, k + 1, line.name, s);
        return None;
      }
      acc := acc + s.fld + f.value;
    }
    assert line.keys[..|line.keys|] == line.keys;
    return Some(head + acc + "\r");
  }

  lemma WalkStep(m: Message, s: Seps, tally: Tally, lines: seq<Line>, j: nat, w: Walk)
    requires j < |lines|
    requires WalkLines(m, s, tally, lines[..j]) == Some(w)
    ensures WalkLines(m, s, tally, lines[..j + 1]) == LineStep(m, s, tally, w, lines[j])
  {
    var u := lines[..j + 1];
    assert u[..j] == lines[..j];
    assert u[j] == lines[j];
  }

  lemma {:induction false} WalkPrefixFails(m: Message, s: Seps, tally: Tally, lines: seq<Line>, j: nat)
    requires j <= |lines|
    requires WalkLines(m, s, tally, lines[..j]) == None
    ensures WalkLines(m, s, tally, lines) == None
    decreases |lines| - j
  {
    if j < |lines| {
      var u := lines[..j + 1];
      assert u[..j] == lines[..j];
      WalkPrefixFails(m, s, tally, lines, j + 1);
    } else {
      assert lines[..j] == lines;
    }
  }

  lemma LineStepAt(m: Message, s: Seps, tally: Tally, w: Walk, line: Line, t: nat, text: Option<string>)
    requires line.name in m.segs && '|' !in line.name
    requires t == if m.segs[line.name].Repeated? && TallyKey(tally, line) in w.seen
                  then w.seen[TallyKey(tally, line)] + 1 else 0
    requires text == LineText(m.segs[line.name], t, line, s)
    ensures LineStep(m, s, tally, w, line)
         == if text.None? then None
            else Some(Walk(w.out + text.value,
                           if m.segs[line.name].Repeated? then w.seen[TallyKey(tally, line) := t] else w.seen))
  {
  }

  /** `toString` (hl7.py:217-401). */
  method ToString(m: Message) returns (r: Option<string>)
    ensures r == ToStringSpec(m)
  {
    var so := SepsOf(m);
    if so.None? {
      return None;
    }
    var s := so.value;
    var out := "";
    var segDict: map<Line, nat> := map[];
    for j := 0 to |m.structure|
      invariant WalkLines(m, s, ByStructureLine, m.structure[..j]) == Some(Walk(out, segDict))
    {
      var next := RenderNext(m, s, j, out, segDict);
      if next.None? {
        return None;
      }
      out, segDict := next.value.out, next.value.seen;
    }
    assert m.structure[..|m.structure|] == m.structure;
    return Some(out);
  }

  /** One pass of the loop over the skeleton (hl7.py:262-399): the entry of
      the line's segment, its occurrence from the counter, the rendered
      line appended and the counter advanced for a repeated segment; `None`
      where the source raises. */
  method RenderNext(m: Message, s: Seps, j: nat, out: string, segDict: map<Line, nat>) returns (r: Option<Walk>)
    requires j < |m.structure|
    requires WalkLines(m, s, ByStructureLine, m.structure[..j]) == Some(Walk(out, segDict))
    ensures r.None? ==> WalkLines(m, s, ByStructureLine, m.structure) == None
    ensures r.Some? ==> WalkLines(m, s, ByStructureLine, m.structure[..j + 1]) == r
  {
    var line := m.structure[j];
    WalkStep(m, s, ByStructureLine, m.structure, j, Walk(out, segDict));
    if line.name !in m.segs || '|' in line.name {
      WalkPrefixFails(m, s, ByStructureLine, m.structure, j + 1);
      return None;
    }
    var e := m.segs[line.name];
    var t := 0;
    if e.Repeated? && line in segDict {
      t := segDict[line] + 1;
    }
    var text := RenderLine(e, t, line, s);
    LineStepAt(m, s, ByStructureLine, Walk(out, segDict), line, t, text);
    if text.None? {
      WalkPrefixFails(m, s, ByStructureLine, m.structure, j + 1);
      return None;
    }
    var seen := segDict;
    if e.Repeated? {
      seen := seen[line := t];
    }
    return Some(Walk(out + text.value, seen));
  }

  // ---------------------------------------------------------------------
  // The occurrence counter
  // ---------------------------------------------------------------------

  /** A three-line skeleton whose first two lines wrote `w` and whose last
      line writes `text`. */
  lemma ToStringOfThree(m: Message, tally: Tally, s: Seps, w: Walk, t: nat, text: string)
    requires SepsOf(m) == Some(s) && |m.structure| == 3
    requires WalkLines(m, s, tally, m.structure[..2]) == Some(w)
    requires m.structure[2].name in m.segs && '|' !in m.structure[2].name
    requires t == if m.segs[m.structure[2].name].Repeated? && TallyKey(tally, m.structure[2]) in w.seen
                  then w.seen[TallyKey(tally, m.structure[2])] + 1 else 0
    requires LineText(m.segs[m.structure[2].name], t, m.structure[2], s) == Some(text)
    ensures ToStringWith(m, tally) == Some(w.out + text)
  {
    WalkStep(m, s, tally, m.structure, 2, w);
    LineStepAt(m, s, tally, w, m.structure[2], t, Some(text));
    assert m.structure[..3] == m.structure;
  }
}
