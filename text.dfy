/**
 * The string operations of Python's `str` that the pipeline relies on:
 * `lower`, `strip` (only through the test "is it empty after stripping"),
 * `rfind` and `join`.
 */
module Text {

  /** ASCII upper-case letters become lower-case; every other character is kept. */
  function LowerChar(c: char): char
  {
    if 'A' <= c <= 'Z' then (c as int + 32) as char else c
  }

  /** `s.lower()`, character by character. */
  function ToLower(s: string): string
  {
    seq(|s|, i requires 0 <= i < |s| => LowerChar(s[i]))
  }

  /** The characters for which Python's `str.isspace` holds, that is what `str.strip()` removes. */
  predicate IsSpace(c: char)
  {
    ('\t' <= c <= '\r') || ('\U{1C}' <= c <= ' ') || c == '\U{85}' || c == '\U{A0}' || c == '\U{1680}'
    || ('\U{2000}' <= c <= '\U{200A}') || c == '\U{2028}' || c == '\U{2029}' || c == '\U{202F}'
    || c == '\U{205F}' || c == '\U{3000}'
  }

  /** `not s.strip()`: stripping leaves nothing exactly when every character is whitespace. */
  predicate IsBlank(s: string)
  {
    forall i :: 0 <= i < |s| ==> IsSpace(s[i])
  }

  /** `s.rfind(c)`: the position of the last occurrence of `c`, or -1. */
  function LastIndex(s: string, c: char): (r: int)
    ensures -1 <= r < |s|
    ensures r >= 0 ==> s[r] == c
    ensures forall k :: r < k < |s| ==> s[k] != c
  {
    if s == [] then -1
    else if s[|s| - 1] == c then |s| - 1
    else LastIndex(s[..|s| - 1], c)
  }

  /** A character that does not occur has no last occurrence. */
  lemma LastIndexAbsent(s: string, c: char)
    requires forall m :: 0 <= m < |s| ==> s[m] != c
    ensures LastIndex(s, c) == -1
  {
  }

  /** An occurrence with none after it is the last one. */
  lemma LastIndexAt(s: string, c: char, k: nat)
    requires k < |s| && s[k] == c
    requires forall m :: k < m < |s| ==> s[m] != c
    ensures LastIndex(s, c) == k
  {
  }

  /** A character absent from position `k` on last occurs before `k`, if at all. */
  lemma LastIndexBefore(s: string, c: char, k: nat)
    requires k <= |s|
    requires forall m :: k <= m < |s| ==> s[m] != c
    ensures LastIndex(s, c) < k
  {
  }

  /** The last occurrence in a concatenation lies in the second part if it occurs there, else in the first. */
  lemma LastIndexConcat(a: string, b: string, c: char)
    ensures LastIndex(a + b, c) == if LastIndex(b, c) >= 0 then |a| + LastIndex(b, c) else LastIndex(a, c)
  {
    var k, j := LastIndex(b, c), LastIndex(a, c);
    var s := a + b;
    if k >= 0 {
      assert s[|a| + k] == b[k];
      assert forall m :: |a| + k < m < |s| ==> s[m] == b[m - |a|];
      LastIndexAt(s, c, |a| + k);
    } else if j >= 0 {
      assert forall m :: j < m < |s| ==> (m < |a| ==> s[m] == a[m]) && (m >= |a| ==> s[m] == b[m - |a|]);
      LastIndexAt(s, c, j);
    } else {
      assert forall m :: 0 <= m < |s| ==> (m < |a| ==> s[m] == a[m]) && (m >= |a| ==> s[m] == b[m - |a|]);
      LastIndexAbsent(s, c);
    }
  }

  /** `sep.join(parts)`. */
  function Join(parts: seq<string>, sep: string): string
  {
    if |parts| == 0 then ""
    else if |parts| == 1 then parts[0]
    else parts[0] + sep + Join(parts[1..], sep)
  }

  function TotalLength(parts: seq<string>): nat
  {
    if parts == [] then 0 else |parts[0]| + TotalLength(parts[1..])
  }

  /** Joining two non-empty lists is joining their joins. */
  lemma {:induction false} JoinAppend(a: seq<string>, b: seq<string>, sep: string)
    requires a != [] && b != []
    ensures Join(a + b, sep) == Join(a, sep) + sep + Join(b, sep)
  {
    if |a| == 1 {
      assert a + b == [a[0]] + b;
      assert (a + b)[1..] == b;
    } else {
      assert (a + b)[1..] == a[1..] + b;
      JoinAppend(a[1..], b, sep);
    }
  }

  /** The joined string's length is the parts' total length plus one separator per gap. */
  lemma {:induction false} JoinLength(parts: seq<string>, sep: string)
    requires parts != []
    ensures |Join(parts, sep)| == TotalLength(parts) + (|parts| - 1) * |sep|
  {
    if |parts| > 1 {
      JoinLength(parts[1..], sep);
    }
  }

  /** The join begins with the first part. */
  lemma {:induction false} JoinStartsWithFirst(parts: seq<string>, sep: string)
    requires parts != []
    ensures |parts[0]| <= |Join(parts, sep)|
    ensures Join(parts, sep)[..|parts[0]|] == parts[0]
  {
    if |parts| > 1 {
      var rest := sep + Join(parts[1..], sep);
      assert Join(parts, sep) == parts[0] + rest;
    }
  }

  /** Where part `i` starts in the joined text: after every earlier part and one separator per earlier part. */
  function Offset(parts: seq<string>, sep: string, i: nat): nat
    requires i <= |parts|
  {
    if i == 0 then 0 else |parts[0]| + |sep| + Offset(parts[1..], sep, i - 1)
  }

  /** The next part starts one separator after the end of this one. */
  lemma {:induction false} OffsetNext(parts: seq<string>, sep: string, i: nat)
    requires i + 1 < |parts|
    ensures Offset(parts, sep, i + 1) == Offset(parts, sep, i) + |parts[i]| + |sep|
  {
    if i > 0 {
      OffsetNext(parts[1..], sep, i - 1);
      assert parts[1..][i - 1] == parts[i];
    }
  }

  /** The joined text holds part `i` at its offset. */
  lemma {:induction false} JoinPart(parts: seq<string>, sep: string, i: nat)
    requires i < |parts|
    ensures Offset(parts, sep, i) + |parts[i]| <= |Join(parts, sep)|
    ensures Join(parts, sep)[Offset(parts, sep, i)..Offset(parts, sep, i) + |parts[i]|] == parts[i]
  {
    if i == 0 {
      JoinStartsWithFirst(parts, sep);
    } else {
      var o := Offset(parts[1..], sep, i - 1);
      JoinPart(parts[1..], sep, i - 1);
      assert parts[1..][i - 1] == parts[i];
      PartAfter(Join(parts, sep), parts[0] + sep, Join(parts[1..], sep), o, parts[i]);
    }
  }

  /** A piece found in the second half of a concatenation is found past the first half. */
  lemma PartAfter(w: string, head: string, rest: string, o: nat, part: string)
    requires w == head + rest
    requires o + |part| <= |rest| && rest[o..o + |part|] == part
    ensures |head| + o + |part| <= |w| && w[|head| + o..|head| + o + |part|] == part
  {
    SliceShift(head, rest, o, o + |part|);
  }

  /** Between part `i` and part `i + 1` the joined text holds exactly one separator. */
  lemma {:induction false} JoinSeparator(parts: seq<string>, sep: string, i: nat)
    requires i + 1 < |parts|
    ensures Offset(parts, sep, i + 1) == Offset(parts, sep, i) + |parts[i]| + |sep|
    ensures Offset(parts, sep, i + 1) <= |Join(parts, sep)|
    ensures Join(parts, sep)[Offset(parts, sep, i) + |parts[i]|..Offset(parts, sep, i + 1)] == sep
  {
    OffsetNext(parts, sep, i);
    JoinPart(parts, sep, i + 1);
    var head, rest := parts[0] + sep, Join(parts[1..], sep);
    assert Join(parts, sep) == head + rest;
    if i == 0 {
      assert Offset(parts, sep, 1) == |head|;
      assert (head + rest)[|parts[0]|..|head|] == sep;
    } else {
      JoinSeparator(parts[1..], sep, i - 1);
      assert parts[1..][i - 1] == parts[i];
      var o := Offset(parts[1..], sep, i - 1) + |parts[i]|;
      SliceShift(head, rest, o, Offset(parts[1..], sep, i));
    }
  }

  /** The joined text ends with the last part: nothing follows it. */
  lemma {:induction false} JoinEnd(parts: seq<string>, sep: string)
    requires parts != []
    ensures |Join(parts, sep)| == Offset(parts, sep, |parts| - 1) + |parts[|parts| - 1]|
  {
    if |parts| > 1 {
      JoinEnd(parts[1..], sep);
      assert parts[1..][|parts| - 2] == parts[|parts| - 1];
    }
  }

  /** Part `i` sits at its offset in `w`, for every part. */
  predicate PartsAt(w: string, parts: seq<string>, sep: string)
  {
    forall i :: 0 <= i < |parts| ==>
      Offset(parts, sep, i) + |parts[i]| <= |w| && w[Offset(parts, sep, i)..Offset(parts, sep, i) + |parts[i]|] == parts[i]
  }

  /** Exactly one separator sits in `w` between every two neighbouring parts. */
  predicate SeparatorsAt(w: string, parts: seq<string>, sep: string)
  {
    forall i {:trigger parts[i]} :: 0 <= i < |parts| - 1 ==>
      Offset(parts, sep, i + 1) == Offset(parts, sep, i) + |parts[i]| + |sep| && Offset(parts, sep, i + 1) <= |w|
      && w[Offset(parts, sep, i) + |parts[i]|..Offset(parts, sep, i + 1)] == sep
  }

  /** The joined text holds every part at its offset. */
  lemma JoinParts(parts: seq<string>, sep: string, w: string)
    requires w == Join(parts, sep)
    ensures PartsAt(w, parts, sep)
  {
    forall i | 0 <= i < |parts|
      ensures Offset(parts, sep, i) + |parts[i]| <= |w|
      ensures w[Offset(parts, sep, i)..Offset(parts, sep, i) + |parts[i]|] == parts[i]
    {
      JoinPart(parts, sep, i);
    }
  }

  /** The joined text holds one separator between every two neighbouring parts. */
  lemma JoinSeparators(parts: seq<string>, sep: string, w: string)
    requires w == Join(parts, sep)
    ensures SeparatorsAt(w, parts, sep)
  {
    forall i {:trigger parts[i]} | 0 <= i < |parts| - 1
      ensures Offset(parts, sep, i + 1) == Offset(parts, sep, i) + |parts[i]| + |sep| && Offset(parts, sep, i + 1) <= |w|
      ensures w[Offset(parts, sep, i) + |parts[i]|..Offset(parts, sep, i + 1)] == sep
    {
      JoinSeparator(parts, sep, i);
    }
  }

  lemma SliceShift(a: string, b: string, x: nat, y: nat)
    requires x <= y <= |b|
    ensures (a + b)[|a| + x..|a| + y] == b[x..y]
  {
  }
}
