/**
 * The Minimal Lower Layer Protocol envelope of HL7 v2.x (Appendix C of the
 * HL7 v2.x Implementation Guide): a message travels as a start byte 0x0B,
 * the message, an end byte 0x1C and a carriage return. `sender.send` and
 * `listener.ack` wrap; the listener and the sender strip the two marker
 * bytes again; the listener collects chunks until one holds the end byte.
 *
 * Bytes and characters are the same small codes here: the UTF-8 encoding
 * and decoding around the socket calls is not modelled.
 */
module Mllp {
  import opened Wrappers
  import opened Text

  /** `<SB>`, vertical tab. */
  const SB: char := 0x0B as char
  /** `<EB>`, file separator. */
  const EB: char := 0x1C as char
  /** `<CR>`, carriage return. */
  const CR: char := '\r'

  /** `SB + message + EB + CR` (hl7.py:593-599, 515-521). */
  function Wrap(m: string): (r: string)
    ensures |r| == |m| + 3
    ensures r[0] == SB && r[1..|m| + 1] == m && r[|m| + 1..] == [EB, CR]
  {
    [SB] + m + [EB, CR]
  }

  /** `data.replace(SB, '').replace(EB, '')` (hl7.py:467-468, 612-613). */
  function Strip(data: string): (r: string)
    ensures SB !in r && EB !in r
    ensures |r| <= |data|
    ensures SB !in data && EB !in data ==> r == data
  {
    RemoveAllKeeps(RemoveAll(data, SB), EB, SB);
    RemoveAll(RemoveAll(data, SB), EB)
  }

  lemma {:induction false} RemoveAllConcat(a: string, b: string, c: char)
    ensures RemoveAll(a + b, c) == RemoveAll(a, c) + RemoveAll(b, c)
  {
    if |a| > 0 {
      RemoveAllConcat(a[1..], b, c);
      assert (a + b)[0] == a[0] && (a + b)[1..] == a[1..] + b;
    } else {
      assert a + b == b;
    }
  }

  /** Stripping keeps every other character, in order. */
  lemma StripConcat(a: string, b: string)
    ensures Strip(a + b) == Strip(a) + Strip(b)
  {
    RemoveAllConcat(a, b, SB);
    RemoveAllConcat(RemoveAll(a, SB), RemoveAll(b, SB), EB);
  }

  /** Unwrapping a wrapped message gives it back with the carriage return
      of the envelope: the two marker bytes are all that stripping removes. */
  lemma StripWrap(m: string)
    requires SB !in m && EB !in m
    ensures Strip(Wrap(m)) == m + [CR]
  {
    DropStart(m);
    DropEnd(m);
  }

  lemma DropStart(m: string)
    requires SB !in m
    ensures RemoveAll(Wrap(m), SB) == m + [EB, CR]
  {
    var tail := [EB, CR];
    assert Wrap(m) == [SB] + (m + tail);
    RemoveAllConcat([SB], m + tail, SB);
    RemoveAllConcat(m, tail, SB);
  }

  lemma DropEnd(m: string)
    requires EB !in m
    ensures RemoveAll(m + [EB, CR], EB) == m + [CR]
  {
    RemoveAllConcat(m, [EB, CR], EB);
  }

  /** `b''.join(parts)`. */
  function Concat(parts: seq<string>): string {
    Join(parts, "")
  }

  lemma ConcatSnoc(parts: seq<string>, x: string)
    ensures Concat(parts + [x]) == Concat(parts) + x
  {
    if parts != [] {
      JoinSnoc(parts, x, "");
    } else {
      assert parts + [x] == [x];
    }
  }

  /** What one received chunk does (hl7.py:456-468): the buffer afterwards
      and the message it completes, if any. An empty chunk is ignored; a
      chunk without the end byte is kept; a chunk with it is joined to what
      was kept, stripped and delivered, and the buffer starts again. */
  function FeedStep(buffer: seq<string>, data: string): (seq<string>, Option<string>) {
    if data == "" then (buffer, None)
    else if EB !in data then (buffer + [data], None)
    else
      var whole := if buffer != [] then Concat(buffer + [data]) else data;
      ([], Some(Strip(whole)))
  }

  /** The listener's chunk buffer (hl7.py:419): the source keeps it in a
      class attribute, shared by every listener object. */
  class Reassembler {
    var largeMsg: seq<string>

    constructor ()
      ensures largeMsg == []
    {
      largeMsg := [];
    }

    /** One pass of the receive loop with `data` received (hl7.py:455-468). */
    method Feed(data: string) returns (r: Option<string>)
      modifies this
      ensures (largeMsg, r) == FeedStep(old(largeMsg), data)
    {
      r := None;
      if data != "" {
        if EB !in data {
          largeMsg := largeMsg + [data];
          return;
        }
        var whole := data;
        if largeMsg != [] {
          largeMsg := largeMsg + [data];
          whole := Concat(largeMsg);
          largeMsg := [];
        }
        whole := RemoveAll(whole, SB);
        whole := RemoveAll(whole, EB);
        r := Some(whole);
      }
    }
  }

  /** Feeding several chunks in turn: the buffer at the end and what each
      chunk delivered. */
  function FeedAll(buffer: seq<string>, chunks: seq<string>): (r: (seq<string>, seq<Option<string>>))
    ensures |r.1| == |chunks|
  {
    if chunks == [] then (buffer, [])
    else
      var n := |chunks| - 1;
      var (b, outs) := FeedAll(buffer, chunks[..n]);
      var (b', out) := FeedStep(b, chunks[n]);
      (b', outs + [out])
  }

  /** `n` passes that deliver nothing. */
  function Nothing(n: nat): seq<Option<string>> {
    if n == 0 then [] else Nothing(n - 1) + [None]
  }

  /** Chunks without the end byte pile up in the buffer and deliver
      nothing. */
  lemma {:induction false} FeedPartial(buffer: seq<string>, chunks: seq<string>)
    requires forall i :: 0 <= i < |chunks| ==> chunks[i] != "" && EB !in chunks[i]
    ensures FeedAll(buffer, chunks) == (buffer + chunks, Nothing(|chunks|))
  {
    if chunks != [] {
      var n := |chunks| - 1;
      FeedPartial(buffer, chunks[..n]);
      assert FeedStep(buffer + chunks[..n], chunks[n]) == (buffer + chunks[..n] + [chunks[n]], None);
      assert buffer + chunks[..n] + [chunks[n]] == buffer + chunks;
      assert Nothing(n + 1) == Nothing(n) + [None];
    } else {
      assert buffer + chunks == buffer;
    }
  }

  /** A message sent as `Wrap(m)`, in any number of non-empty chunks with
      the end byte only in the last, is delivered once, as `m` with the
      trailing carriage return, when `m` holds neither marker byte; the
      buffer is empty again afterwards. */
  lemma Reassembly(pre: seq<string>, last: string, m: string)
    requires forall i :: 0 <= i < |pre| ==> pre[i] != "" && EB !in pre[i]
    requires last != ""
    requires Concat(pre + [last]) == Wrap(m) && SB !in m && EB !in m
    ensures FeedAll([], pre + [last]) == ([], Nothing(|pre|) + [Some(m + [CR])])
  {
    FeedPartial([], pre);
    assert [] + pre == pre;
    ConcatSnoc(pre, last);
    Delivered(pre, last, m);
    FeedAllSnoc([], pre, last);
  }

  /** The last chunk completes the envelope and delivers the message. */
  lemma Delivered(pre: seq<string>, last: string, m: string)
    requires last != "" && forall i :: 0 <= i < |pre| ==> EB !in pre[i]
    requires Concat(pre + [last]) == Concat(pre) + last == Wrap(m)
    requires SB !in m && EB !in m
    ensures FeedStep(pre, last) == ([], Some(m + [CR]))
  {
    assert Wrap(m)[|m| + 1] == EB;
    EndByteIn(pre, last, |m| + 1);
    LastFeed(pre, last);
    StripWrap(m);
  }

  lemma FeedAllSnoc(buffer: seq<string>, chunks: seq<string>, x: string)
    ensures FeedAll(buffer, chunks + [x])
         == (FeedStep(FeedAll(buffer, chunks).0, x).0,
             FeedAll(buffer, chunks).1 + [FeedStep(FeedAll(buffer, chunks).0, x).1])
  {
    assert (chunks + [x])[..|chunks|] == chunks;
  }

  /** The chunk with the end byte delivers everything kept before it. */
  lemma LastFeed(pre: seq<string>, last: string)
    requires last != "" && EB in last
    ensures FeedStep(pre, last) == ([], Some(Strip(Concat(pre + [last]))))
  {
    if pre == [] {
      assert pre + [last] == [last];
    }
  }

  /** A character of a concatenation that the front does not hold is in
      the last part. */
  lemma EndByteIn(pre: seq<string>, last: string, k: nat)
    requires forall i :: 0 <= i < |pre| ==> EB !in pre[i]
    requires k < |Concat(pre) + last| && (Concat(pre) + last)[k] == EB
    ensures EB in last
  {
    ConcatWithout(pre, EB);
    var a := Concat(pre);
    assert k >= |a|;
    assert last[k - |a|] == EB;
  }

  lemma {:induction false} ConcatWithout(parts: seq<string>, c: char)
    requires forall i :: 0 <= i < |parts| ==> c !in parts[i]
    ensures c !in Concat(parts)
  {
    if |parts| > 1 {
      ConcatWithout(parts[1..], c);
      assert Concat(parts) == parts[0] + Concat(parts[1..]);
    }
  }
}
