/**
 * The in-memory form of a parsed HL7 v2.x message. The source keeps one
 * Python dictionary whose entries are strings, dictionaries or lists
 * depending on their shape; here each shape is a variant, decided once at
 * parse time.
 */
module Hl7Model {
  import opened Text

  /** One component: a plain string, or its subcomponents keyed by their
      1-based index (the source's keys `SEG.n.c.s`). */
  datatype Component = CText(text: string) | Subs(subs: map<nat, string>)

  /** One field value or one repetition of a field: a plain string, or its
      components keyed by their 1-based index (keys `SEG.n.c`). */
  datatype Value = Text(text: string) | Comps(comps: map<nat, Component>)

  /** What the source stores under a field key `SEG.n`: a single value, or
      the list it builds for a repeating field. */
  datatype Field = One(value: Value) | Reps(reps: seq<Value>)

  /** One occurrence of a segment: its fields keyed by field number. */
  type Fields = map<nat, Field>

  /** What the source stores under a segment name: the field dictionary of
      its only occurrence, or the list of all occurrences once the name has
      been seen a second time. */
  datatype SegEntry = Single(fields: Fields) | Repeated(occs: seq<Fields>)

  /** One line of the `structure` skeleton: the segment name and the field
      keys in the order the segment listed them. */
  datatype Line = Line(name: string, keys: seq<nat>)

  /** The dictionary `parse` returns, without the derived short-cut entries
      (see `Hl7Parse.Shortcuts`). */
  datatype Message = Message(
    segs: map<string, SegEntry>,  // msg[SEG]
    structure: seq<Line>,         // msg['structure']
    raw: string,                  // msg['raw'], line endings normalised to CR
    segments: seq<string>,        // msg['segments']
    status: string)               // msg['status']

  /** The occurrences a segment entry holds, in encounter order. */
  function Occs(e: SegEntry): seq<Fields> {
    match e
    case Single(f) => [f]
    case Repeated(o) => o
  }

  /** The source's `rep(x)`: true exactly for the list-shaped entries,
      applied to a field. */
  predicate RepField(f: Field) {
    f.Reps?
  }

  /** The source's `rep(x)` applied to a segment entry. */
  predicate RepSegment(e: SegEntry) {
    e.Repeated?
  }

  /** The key name the source builds for field `n` of segment `seg`. */
  function KeyName(seg: string, n: nat): string {
    seg + "." + NatToString(n)
  }
}
