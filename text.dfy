/**
 * The string operations of Python's standard library that the HL7 code
 * relies on: `str.split` and `str.join` with a one-character separator,
 * `str.replace` of one character, slicing that clips at the end of the
 * string, and `str(n)` for a natural number.
 */
module Text {

  /** A delimiter read from `raw[i:i+1]`: one character, or empty when
      the message is too short. */
  type Sep = s: string | |s| <= 1

  /** A nonempty sequence is its front followed by its last element. */
  lemma LastSplit<T>(xs: seq<T>)
    requires xs != []
    ensures xs == xs[..|xs| - 1] + [xs[|xs| - 1]]
  {
  }

  /** Python's `s[i:j]` for 0 <= i <= j: clipped at the end of `s`. */
  function Slice(s: string, i: nat, j: nat): (r: string)
    requires i <= j
    ensures |r| <= j - i
    ensures j <= |s| ==> r == s[i..j]
    ensures |s| <= i ==> r == ""
  {
    if |s| <= i then "" else if |s| <= j then s[i..] else s[i..j]
  }

  /** Python's `sep in s` for a separator of at most one character:
      the empty string is contained in every string. */
  predicate Has(s: string, sep: Sep) {
    sep == [] || sep[0] in s
  }

  /** Python's `s.split(c)`. */
  function Split(s: string, c: char): (parts: seq<string>)
    ensures |parts| >= 1
  {
    if |s| == 0 then [""]
    else
      var rest := Split(s[1..], c);
      if s[0] == c then [""] + rest
      else [[s[0]] + rest[0]] + rest[1..]
  }

  /** No part of a split holds the separator, and there is one part more
      than there are separators in `s`. */
  lemma {:induction false} SplitParts(s: string, c: char)
    ensures forall i :: 0 <= i < |Split(s, c)| ==> c !in Split(s, c)[i]
    ensures |Split(s, c)| - 1 == |s| - |RemoveAll(s, c)|
  {
    if |s| > 0 {
      SplitParts(s[1..], c);
    }
  }

  /** `s` without any occurrence of `c`. */
  function RemoveAll(s: string, c: char): (r: string)
    ensures |r| <= |s|
    ensures c !in r
    ensures c !in s ==> r == s
  {
    if |s| == 0 then ""
    else if s[0] == c then RemoveAll(s[1..], c)
    else [s[0]] + RemoveAll(s[1..], c)
  }

  /** Removing one character brings in no other. */
  lemma {:induction false} RemoveAllKeeps(s: string, c: char, d: char)
    requires d !in s
    ensures d !in RemoveAll(s, c)
  {
    if |s| > 0 {
      RemoveAllKeeps(s[1..], c, d);
    }
  }

  /** A string without the separator splits into itself. */
  lemma {:induction false} SplitWithout(s: string, c: char)
    requires c !in s
    ensures Split(s, c) == [s]
  {
    if |s| > 0 {
      SplitWithout(s[1..], c);
      assert [s[0]] + s[1..] == s;
    }
  }

  /** Python's `sep.join(parts)`. */
  function Join(parts: seq<string>, sep: string): string {
    if |parts| == 0 then ""
    else if |parts| == 1 then parts[0]
    else parts[0] + sep + Join(parts[1..], sep)
  }

  /** Python's `s.replace(a, b)` for single characters. */
  function Replace(s: string, a: char, b: char): (r: string)
    ensures |r| == |s|
    ensures forall i :: 0 <= i < |s| ==> r[i] == if s[i] == a then b else s[i]
  {
    if |s| == 0 then "" else [if s[0] == a then b else s[0]] + Replace(s[1..], a, b)
  }

  function DigitChar(d: nat): char
    requires d < 10
  {
    "0123456789"[d]
  }

  /** Python's `str(n)` for a natural number. */
  function NatToString(n: nat): (r: string)
    ensures |r| >= 1
    decreases n
  {
    if n < 10 then [DigitChar(n)] else NatToString(n / 10) + [DigitChar(n % 10)]
  }

  /** `sep.join` of one separator-free part per element gives back the string
      that `split` cut: every character of `s` is kept, delimiters included. */
  lemma {:induction false} JoinSplit(s: string, c: char)
    ensures Join(Split(s, c), [c]) == s
  {
    if |s| > 0 {
      var rest := Split(s[1..], c);
      JoinSplit(s[1..], c);
      if s[0] == c {
        assert Split(s, c) == [""] + rest;
        assert ([""] + rest)[1..] == rest;
      } else {
        if |rest| > 1 {
          assert Join(rest, [c]) == rest[0] + [c] + Join(rest[1..], [c]);
        }
      }
    }
  }

  /** Joining one more part adds the separator and the part at the end. */
  lemma {:induction false} JoinSnoc(parts: seq<string>, x: string, sep: string)
    requires parts != []
    ensures Join(parts + [x], sep) == Join(parts, sep) + sep + x
  {
    if |parts| > 1 {
      JoinSnoc(parts[1..], x, sep);
      assert (parts + [x])[1..] == parts[1..] + [x];
    }
  }

  /** Replacing in a string with one more character at the end. */
  lemma ReplaceSnoc(s: string, x: char, a: char, b: char)
    ensures Replace(s + [x], a, b) == Replace(s, a, b) + [if x == a then b else x]
  {
    assert forall i :: 0 <= i < |s| ==> (s + [x])[i] == s[i];
  }

  /** Replacing a character the string does not hold changes nothing. */
  lemma ReplaceAbsent(s: string, a: char, b: char)
    requires a !in s
    ensures Replace(s, a, b) == s
  {
  }

  /** A string ending in the separator splits into one more, empty, part. */
  lemma {:induction false} SplitTrailing(s: string, c: char)
    ensures Split(s + [c], c) == Split(s, c) + [""]
  {
    if |s| > 0 {
      SplitTrailing(s[1..], c);
      assert (s + [c])[1..] == s[1..] + [c];
    }
  }

  /** The first part of a split starts with the separator-free front of
      the string. */
  lemma {:induction false} SplitFirst(s: string, c: char, k: nat)
    requires k <= |s|
    requires forall i :: 0 <= i < k ==> s[i] != c
    ensures |Split(s, c)[0]| >= k && Split(s, c)[0][..k] == s[..k]
  {
    if k > 0 {
      SplitFirst(s[1..], c, k - 1);
      assert s[..k] == [s[0]] + s[1..][..k - 1];
    }
  }

  /** Conversely, splitting a join of separator-free parts gives the parts. */
  lemma {:induction false} SplitJoin(parts: seq<string>, c: char)
    requires |parts| >= 1
    requires forall i :: 0 <= i < |parts| ==> c !in parts[i]
    ensures Split(Join(parts, [c]), c) == parts
  {
    if |parts| == 1 {
      SplitWithout(parts[0], c);
    } else {
      SplitJoin(parts[1..], c);
      SplitPrefix(parts[0], [c] + Join(parts[1..], [c]), c);
      assert parts[0] + [c] + Join(parts[1..], [c]) == parts[0] + ([c] + Join(parts[1..], [c]));
      assert ([c] + Join(parts[1..], [c]))[1..] == Join(parts[1..], [c]);
      assert [parts[0]] + parts[1..] == parts;
    }
  }

  /** Splitting `p + t` where `p` has no separator and `t` starts with one. */
  lemma {:induction false} SplitPrefix(p: string, t: string, c: char)
    requires c !in p
    requires |t| > 0 && t[0] == c
    ensures Split(p + t, c) == [p] + Split(t[1..], c)
  {
    if |p| > 0 {
      SplitPrefix(p[1..], t, c);
      assert (p + t)[0] == p[0];
      assert (p + t)[1..] == p[1..] + t;
      var rest := Split(p[1..] + t, c);
      assert rest == [p[1..]] + Split(t[1..], c);
      assert Split(p + t, c) == [[p[0]] + rest[0]] + rest[1..];
      assert [p[0]] + p[1..] == p;
      assert rest[1..] == Split(t[1..], c);
    } else {
      assert p + t == t;
    }
  }

  /** A character absent from a string is absent from every part of its
      split. */
  lemma {:induction false} SplitKeeps(s: string, c: char, d: char)
    requires d !in s
    ensures forall i :: 0 <= i < |Split(s, c)| ==> d !in Split(s, c)[i]
  {
    if |s| > 0 {
      SplitKeeps(s[1..], c, d);
    }
  }

  /** A join holds only the characters of its parts and its separator. */
  lemma {:induction false} JoinKeeps(parts: seq<string>, sep: string, d: char)
    requires d !in sep && forall i :: 0 <= i < |parts| ==> d !in parts[i]
    ensures d !in Join(parts, sep)
  {
    if |parts| > 1 {
      JoinKeeps(parts[1..], sep, d);
    }
  }

  /** The first part of a split ends before the first separator. */
  lemma {:induction false} SplitHeadBefore(s: string, c: char, k: nat)
    requires k < |s| && s[k] == c
    ensures |Split(s, c)[0]| <= k
  {
    if k > 0 && s[0] != c {
      SplitHeadBefore(s[1..], c, k - 1);
    }
  }

  /** A split has at most one part more than the string has characters. */
  lemma SplitCount(s: string, c: char)
    ensures |Split(s, c)| <= |s| + 1
  {
    SplitParts(s, c);
  }

  /** Joining three parts. */
  lemma JoinThree(a: string, b: string, c: string, sep: string)
    ensures Join([a, b, c], sep) == a + sep + b + sep + c
  {
    assert [a, b, c][1..] == [b, c];
    assert [b, c][1..] == [c];
    assert Join([b, c], sep) == b + sep + c;
    assert a + sep + (b + sep + c) == a + sep + b + sep + c;
  }
}
