/**
 * The acknowledgement that `listener.ack` builds for a received message
 * (hl7.py:480-521): the first twelve MSH fields with `ACK` as the first
 * component of the message type, an `MSA` segment carrying the status and
 * the control id of the original, and the MLLP envelope around both.
 *
 * Sending the frame back over the connection is not part of this model.
 */
module Ack {
  import opened Wrappers
  import opened Text
  import opened Mllp

  /** The segment terminator: a line feed if the message holds one, a
      carriage return otherwise (hl7.py:489-493). */
  function Terminator(raw: string): (ret: char)
    ensures ret == '\n' || ret == '\r'
  {
    if '\n' in raw then '\n' else '\r'
  }

  /** The first segment, up to the terminator (hl7.py:496). */
  function MshLine(raw: string): string {
    Split(raw, Terminator(raw))[0]
  }

  /** The first segment split on the field separator `raw[3]` (hl7.py:498). */
  function MshFields(raw: string): seq<string>
    requires |raw| >= 4
  {
    Split(MshLine(raw), raw[3])
  }

  /** The message can be acknowledged: it has a field and a component
      separator, and its first segment has at least twelve fields. On any
      other message the source raises: `split` on an empty separator, or
      an index past the end of the field list. */
  predicate Acknowledgeable(raw: string) {
    |raw| >= 5 && |MshFields(raw)| >= 12
  }

  /** MSH-9 with its first component replaced by `ACK` (hl7.py:502-506). */
  function AckType(f: string, com: char): string {
    Join(["ACK"] + Split(f, com)[1..], [com])
  }

  /** The first twelve fields with MSH-9 retyped. */
  function Retyped(fs: seq<string>, com: char): (r: seq<string>)
    requires |fs| >= 12
    ensures |r| == 12
  {
    fs[..12][8 := AckType(fs[8], com)]
  }

  /** The fields of the acknowledgement's MSH segment. */
  function AckFields(raw: string): (r: seq<string>)
    requires Acknowledgeable(raw)
    ensures |r| == 12
  {
    Retyped(MshFields(raw), raw[4])
  }

  /** The acknowledgement's MSH segment (hl7.py:507-510). */
  function AckMsh(raw: string): string
    requires Acknowledgeable(raw)
  {
    Join(AckFields(raw), [raw[3]])
  }

  /** `MSA|status|MSH-10` (hl7.py:513). */
  function MsaLine(raw: string, status: string): string
    requires Acknowledgeable(raw)
  {
    "MSA" + [raw[3]] + status + [raw[3]] + MshFields(raw)[9]
  }

  /** The acknowledgement, both segments terminated (hl7.py:513). */
  function AckMessage(raw: string, status: string): string
    requires Acknowledgeable(raw)
  {
    AckMsh(raw) + [Terminator(raw)] + MsaLine(raw, status) + [Terminator(raw)]
  }

  /** What `ack` returns: the framed acknowledgement, or `None` where the
      source raises. */
  function AckFrame(raw: string, status: string): Option<string> {
    if Acknowledgeable(raw) then Some(Wrap(AckMessage(raw, status))) else None
  }

  /** `fs[0] + f + fs[1] + f + ...`, each part followed by `f`: the text the
      loop has built after `|fs|` passes. */
  function Suffixed(fs: seq<string>, f: char): string {
    if fs == [] then "" else Suffixed(fs[..|fs| - 1], f) + fs[|fs| - 1] + [f]
  }

  lemma {:induction false} SuffixedJoin(fs: seq<string>, f: char)
    requires fs != []
    ensures Suffixed(fs, f) == Join(fs, [f]) + [f]
  {
    var n := |fs| - 1;
    if n == 0 {
      assert fs[..n] == [];
    } else {
      SuffixedJoin(fs[..n], f);
      JoinSnoc(fs[..n], fs[n], [f]);
      assert fs[..n] + [fs[n]] == fs;
    }
  }

  lemma AckMessageIs(raw: string, status: string, msh: string, ret: char, f9: string)
    requires Acknowledgeable(raw)
    requires msh == AckMsh(raw) && ret == Terminator(raw) && f9 == MshFields(raw)[9]
    ensures msh + [ret] + "MSA" + [raw[3]] + status + [raw[3]] + f9 + [ret] == AckMessage(raw, status)
  {
  }

  /** The `while i < 12` loop of `listener.ack` (hl7.py:499-510): the
      acknowledgement's MSH segment from the fields of the original. */
  method JoinHeader(fields: seq<string>, fld: char, com: char) returns (msh: string)
    requires |fields| >= 12
    ensures msh == Join(Retyped(fields, com), [fld])
  {
    ghost var target := Retyped(fields, com);
    var fs := fields;
    var i := 0;
    msh := "";
    while i < 12
      invariant 0 <= i <= 12 && |fs| == |fields|
      invariant fs[..i] == target[..i]
      invariant fs[i..] == fields[i..]
      invariant msh == Suffixed(fs[..i], fld)
    {
      assert fs[i] == fields[i];
      if i == 8 {
        var coms := Split(fs[i], com);
        coms := coms[0 := "ACK"];
        assert coms == ["ACK"] + Split(fields[8], com)[1..];
        fs := fs[i := Join(coms, [com])];
      }
      assert fs[..i + 1] == fs[..i] + [fs[i]];
      msh := msh + fs[i] + [fld];
      i := i + 1;
    }
    assert fs[..12] == target;
    SuffixedJoin(target, fld);
    msh := msh[..|msh| - 1];
  }

  /** `listener.ack` up to the send (hl7.py:480-521). The too-short and
      too-few-fields cases are checked before the loop: the source raises
      inside it, and nothing it has done by then is visible. */
  method BuildAck(raw: string, status: string) returns (data: Option<string>)
    ensures data == AckFrame(raw, status)
  {
    if |raw| < 5 {
      return None;
    }
    var fld := raw[3];
    var com := raw[4];
    var ret := if '\n' in raw then '\n' else '\r';
    var segments := Split(raw, ret);
    var fields := Split(segments[0], fld);
    assert fields == MshFields(raw);
    if |fields| < 12 {
      return None;
    }
    var msh := JoinHeader(fields, fld, com);
    var ack := msh + [ret] + "MSA" + [fld] + status + [fld] + fields[9] + [ret];
    AckMessageIs(raw, status, msh, ret, fields[9]);
    data := Some([SB] + ack + [EB, CR]);
  }

  /** A separator equal to the terminator would end the first line before
      the twelfth field. */
  lemma ShortLine(raw: string, k: nat)
    requires 4 <= k + 1 && k < |raw|
    ensures raw[k] == Terminator(raw) ==> |MshFields(raw)| <= k + 1
  {
    if raw[k] == Terminator(raw) {
      SplitHeadBefore(raw, Terminator(raw), k);
      SplitCount(MshLine(raw), raw[3]);
    }
  }

  /** In a message that can be acknowledged, neither separator is the
      terminator. */
  lemma SeparatorsNotTerminator(raw: string)
    requires Acknowledgeable(raw)
    ensures raw[3] != Terminator(raw) && raw[4] != Terminator(raw)
  {
    ShortLine(raw, 3);
    ShortLine(raw, 4);
  }

  /** The retyped MSH-9 splits into `ACK` followed by the original's
      components after the first. */
  lemma AckTypeComponents(f: string, com: char)
    requires com !in "ACK"
    ensures Split(AckType(f, com), com) == ["ACK"] + Split(f, com)[1..]
  {
    SplitParts(f, com);
    SplitJoin(["ACK"] + Split(f, com)[1..], com);
  }

  /** A character that is neither a separator nor in `ACK`, `MSA`, the
      first line or the status does not occur in the acknowledgement's
      segments. */
  lemma AckKeeps(raw: string, status: string, c: char)
    requires Acknowledgeable(raw)
    requires c !in MshLine(raw) && c != raw[3] && c != raw[4]
    requires c !in "ACK" && c !in "MSA" && c !in status
    ensures c !in AckMsh(raw) && c !in MsaLine(raw, status)
  {
    var fs := MshFields(raw);
    SplitKeeps(MshLine(raw), raw[3], c);
    SplitKeeps(fs[8], raw[4], c);
    JoinKeeps(["ACK"] + Split(fs[8], raw[4])[1..], [raw[4]], c);
    JoinKeeps(AckFields(raw), [raw[3]], c);
  }

  /** Split on the field separator, the acknowledgement's MSH segment gives
      the first twelve fields of the original, except MSH-9, whose first
      component is `ACK` and whose other components are kept. */
  lemma AckHeader(raw: string)
    requires Acknowledgeable(raw) && raw[3] != raw[4] && raw[3] !in "ACK" && raw[4] !in "ACK"
    ensures |Split(AckMsh(raw), raw[3])| == 12
    ensures forall i :: 0 <= i < 12 && i != 8 ==> Split(AckMsh(raw), raw[3])[i] == MshFields(raw)[i]
    ensures Split(Split(AckMsh(raw), raw[3])[8], raw[4]) == ["ACK"] + Split(MshFields(raw)[8], raw[4])[1..]
  {
    var fs, fld, com := MshFields(raw), raw[3], raw[4];
    SplitParts(MshLine(raw), fld);
    SplitKeeps(fs[8], com, fld);
    JoinKeeps(["ACK"] + Split(fs[8], com)[1..], [com], fld);
    SplitJoin(AckFields(raw), fld);
    AckTypeComponents(fs[8], com);
  }

  /** Split on the terminator, the acknowledgement is its MSH segment, its
      MSA segment and the empty remainder after the last terminator. */
  lemma AckSegments(raw: string, status: string)
    requires Acknowledgeable(raw) && Terminator(raw) !in status
    ensures Split(AckMessage(raw, status), Terminator(raw)) == [AckMsh(raw), MsaLine(raw, status), ""]
  {
    var ret := Terminator(raw);
    SplitParts(raw, ret);
    SeparatorsNotTerminator(raw);
    AckKeeps(raw, status, ret);
    JoinThree(AckMsh(raw), MsaLine(raw, status), "", [ret]);
    assert AckMessage(raw, status) + "" == AckMessage(raw, status);
    SplitJoin([AckMsh(raw), MsaLine(raw, status), ""], ret);
  }

  /** The MSA segment's fields are `MSA`, the status and the original's
      control id MSH-10. */
  lemma MsaFields(raw: string, status: string)
    requires Acknowledgeable(raw) && raw[3] !in status && raw[3] !in "MSA"
    ensures Split(MsaLine(raw, status), raw[3]) == ["MSA", status, MshFields(raw)[9]]
  {
    SplitParts(MshLine(raw), raw[3]);
    JoinThree("MSA", status, MshFields(raw)[9], [raw[3]]);
    SplitJoin(["MSA", status, MshFields(raw)[9]], raw[3]);
  }

  /** What the sender makes of the frame (hl7.py:612-613): stripping the
      marker bytes gives the acknowledgement with the envelope's carriage
      return, when neither marker byte is in the message or the status. */
  lemma AckUnwrapped(raw: string, status: string)
    requires Acknowledgeable(raw)
    requires SB !in raw && EB !in raw && SB !in status && EB !in status
    ensures AckFrame(raw, status).Some?
    ensures Strip(AckFrame(raw, status).value) == AckMessage(raw, status) + [CR]
  {
    SplitKeeps(raw, Terminator(raw), SB);
    SplitKeeps(raw, Terminator(raw), EB);
    AckKeeps(raw, status, SB);
    AckKeeps(raw, status, EB);
    StripWrap(AckMessage(raw, status));
  }
}
