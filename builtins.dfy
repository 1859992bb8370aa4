/** The Python built-ins that the tagging and chunking utilities rely on:
    str.isspace, str.strip, str.find, str.join, slicing of strings and lists,
    range and floor division, each stated with Python's own edge cases. */
module Builtins {

  /** The outcome of a call that may raise: a value, or the kind of
      exception raised. */
  datatype Result<+T, +E> = Ok(value: T) | Fail(error: E)

  /** str.isspace() for one character: the characters that str.strip()
      removes when it is called without arguments. */
  predicate IsSpace(c: char)
  {
    var k := c as int;
    k == 0x20 || 0x09 <= k <= 0x0D || 0x1C <= k <= 0x1F || k == 0x85 || k == 0xA0
    || k == 0x1680 || 0x2000 <= k <= 0x200A || k == 0x2028 || k == 0x2029
    || k == 0x202F || k == 0x205F || k == 0x3000
  }

  /** Every character is whitespace (so strip() leaves nothing). */
  predicate IsBlank(s: string)
  {
    forall k :: 0 <= k < |s| ==> IsSpace(s[k])
  }

  /** Neither end is whitespace: the shape of every value strip() returns. */
  predicate Stripped(s: string)
  {
    s == [] || (!IsSpace(s[0]) && !IsSpace(s[|s| - 1]))
  }

  /** The number of whitespace characters at the start of s. */
  function LeadingSpaces(s: string): (n: nat)
    ensures n <= |s| && IsBlank(s[..n])
    ensures n < |s| ==> !IsSpace(s[n])
  {
    if |s| > 0 && IsSpace(s[0]) then
      var n := 1 + LeadingSpaces(s[1..]);
      assert s[..n] == [s[0]] + s[1..][..n - 1];
      n
    else 0
  }

  /** The number of whitespace characters at the end of s. */
  function TrailingSpaces(s: string): (n: nat)
    ensures n <= |s| && IsBlank(s[|s| - n..])
    ensures n < |s| ==> !IsSpace(s[|s| - n - 1])
  {
    if |s| > 0 && IsSpace(s[|s| - 1]) then
      var n := 1 + TrailingSpaces(s[..|s| - 1]);
      assert s[|s| - n..] == s[..|s| - 1][|s| - n..] + [s[|s| - 1]];
      n
    else 0
  }

  /** s.strip() */
  function Strip(s: string): (r: string)
    ensures Stripped(r)
    ensures |r| <= |s|
    ensures |r| == 0 <==> IsBlank(s)
  {
    var i := LeadingSpaces(s);
    if i == |s| then []
    else
      var j := |s| - TrailingSpaces(s);
      assert forall k :: j <= k < |s| ==> IsSpace(s[k]) by {
        forall k | j <= k < |s| ensures IsSpace(s[k]) { assert s[k] == s[j..][k - j]; }
      }
      assert !IsBlank(s) by { assert !IsSpace(s[i]); }
      s[i..j]
  }

  /** sub occurs in s at index i. */
  predicate OccursAt(s: string, sub: string, i: int)
  {
    0 <= i && i + |sub| <= |s| && s[i..i + |sub|] == sub
  }

  /** `sub in s` */
  predicate Contains(s: string, sub: string)
  {
    exists i :: 0 <= i <= |s| - |sub| && OccursAt(s, sub, i)
  }

  /** The first occurrence of sub in s at or after i, or -1. */
  function FindFrom(s: string, sub: string, i: nat): (r: int)
    ensures r == -1 || (i <= r && OccursAt(s, sub, r))
    ensures forall j :: i <= j && (r == -1 || j < r) ==> !OccursAt(s, sub, j)
    decreases |s| - i
  {
    if i + |sub| > |s| then -1
    else if OccursAt(s, sub, i) then i
    else FindFrom(s, sub, i + 1)
  }

  /** s.find(sub): the index of the first occurrence of sub, or -1. */
  function Find(s: string, sub: string): (r: int)
    ensures r == -1 <==> !Contains(s, sub)
    ensures r != -1 ==> OccursAt(s, sub, r)
    ensures forall j :: 0 <= j < r ==> !OccursAt(s, sub, j)
  {
    FindFrom(s, sub, 0)
  }

  /** A slice bound as Python reads it for a sequence of length n: a negative
      bound counts from the end, and the result is clamped to 0..n. */
  function SliceBound(i: int, n: nat): (r: nat)
    ensures r <= n
  {
    if i < 0 then (if i + n < 0 then 0 else i + n)
    else if i > n then n
    else i
  }

  /** s[lo:hi] on a list or a string. */
  function PySlice<T>(s: seq<T>, lo: int, hi: int): (r: seq<T>)
    ensures |r| <= |s|
  {
    var i, j := SliceBound(lo, |s|), SliceBound(hi, |s|);
    if i < j then s[i..j] else []
  }

  /** s[lo:] */
  function PySliceFrom<T>(s: seq<T>, lo: int): (r: seq<T>)
    ensures |r| <= |s|
  {
    PySlice(s, lo, |s|)
  }

  /** s[:hi] */
  function PySliceTo<T>(s: seq<T>, hi: int): (r: seq<T>)
    ensures |r| <= |s|
  {
    PySlice(s, 0, hi)
  }

  lemma SliceToIs<T>(s: seq<T>, k: int)
    requires 0 <= k <= |s|
    ensures PySliceTo(s, k) == s[..k]
  {
  }

  lemma SliceFromIs<T>(s: seq<T>, k: int)
    requires 0 <= k <= |s|
    ensures PySliceFrom(s, k) == s[k..]
  {
  }

  /** s[i:][j:] == s[i + j:] */
  lemma SliceFromTwice<T>(s: seq<T>, i: nat, j: nat)
    ensures PySliceFrom(PySliceFrom(s, i), j) == PySliceFrom(s, i + j)
  {
  }

  /** The total length of the strings in l. */
  function TotalLength(l: seq<string>): nat
  {
    if |l| == 0 then 0 else |l[0]| + TotalLength(l[1..])
  }

  /** sep.join(l) */
  function Join(sep: string, l: seq<string>): (r: string)
    ensures |l| == 0 ==> r == ""
    ensures |l| > 0 ==> |r| == TotalLength(l) + |sep| * (|l| - 1)
  {
    if |l| == 0 then ""
    else if |l| == 1 then l[0]
    else l[0] + sep + Join(sep, l[1..])
  }

  /** a // b: the quotient rounded towards minus infinity (ZeroDivisionError
      when b == 0 is left to the caller). */
  function FloorDiv(a: int, b: int): (q: int)
    requires b != 0
    ensures b > 0 ==> b * q <= a < b * q + b
    ensures b < 0 ==> b * q + b < a <= b * q
  {
    if b > 0 then a / b else (-a) / (-b)
  }

  /** The values range(start, stop, step) yields (ValueError when step == 0
      is left to the caller). */
  function Range(start: int, stop: int, step: int): (r: seq<int>)
    requires step != 0
    ensures forall k :: 0 <= k < |r| ==> r[k] == start + k * step
    ensures forall k :: 0 <= k < |r| ==> if step > 0 then r[k] < stop else r[k] > stop
    ensures if step > 0 then start + |r| * step >= stop else start + |r| * step <= stop
    decreases if step > 0 then stop - start else start - stop
  {
    if (step > 0 && start < stop) || (step < 0 && start > stop) then
      var rest := Range(start + step, stop, step);
      var r := [start] + rest;
      assert forall k :: 0 <= k < |r| ==> r[k] == start + k * step by {
        forall k | 0 <= k < |r| ensures r[k] == start + k * step {
          if k > 0 {
            assert r[k] == rest[k - 1] == start + step + (k - 1) * step;
            assert (k - 1) * step + step == k * step;
          }
        }
      }
      assert (|rest| + 1) * step == |rest| * step + step;
      r
    else []
  }

  /** Find returns k when sub occurs at k and nowhere before. */
  lemma FindIs(s: string, sub: string, k: int)
    requires OccursAt(s, sub, k)
    requires forall j :: 0 <= j < k ==> !OccursAt(s, sub, j)
    ensures Find(s, sub) == k
  {
  }

  /** strip() of a stripped string with whitespace around it is that string. */
  lemma StripOf(p: string, x: string, q: string)
    requires IsBlank(p) && IsBlank(q) && Stripped(x)
    ensures Strip(p + x + q) == x
  {
    var s := p + x + q;
    if x == [] {
      assert forall k :: 0 <= k < |s| ==> IsSpace(s[k]) by {
        forall k | 0 <= k < |s| ensures IsSpace(s[k]) {
          if k < |p| { assert s[k] == p[k]; } else { assert s[k] == q[k - |p|]; }
        }
      }
    } else {
      assert s == p + (x + q) == (p + x) + q;
      LeadingSpacesOf(p, x + q);
      TrailingSpacesOf(p + x, q);
      assert s[|p|..|s| - |q|] == x;
    }
  }

  lemma {:induction false} LeadingSpacesOf(p: string, y: string)
    requires IsBlank(p) && y != [] && !IsSpace(y[0])
    ensures LeadingSpaces(p + y) == |p|
  {
    if p != [] {
      assert (p + y)[1..] == p[1..] + y;
      LeadingSpacesOf(p[1..], y);
    }
  }

  lemma {:induction false} TrailingSpacesOf(y: string, q: string)
    requires IsBlank(q) && y != [] && !IsSpace(y[|y| - 1])
    ensures TrailingSpaces(y + q) == |q|
  {
    if q != [] {
      assert (y + q)[..|y + q| - 1] == y + q[..|q| - 1];
      TrailingSpacesOf(y, q[..|q| - 1]);
    }
  }

  /** strip() removes only whitespace from the two ends: its result sits at
      some index i of s with nothing but whitespace around it. */
  lemma StripAt(s: string) returns (i: nat)
    ensures i + |Strip(s)| <= |s|
    ensures s[i..i + |Strip(s)|] == Strip(s)
    ensures IsBlank(s[..i]) && IsBlank(s[i + |Strip(s)|..])
  {
    i := LeadingSpaces(s);
    if i == |s| {
    } else {
      var j := |s| - TrailingSpaces(s);
      assert Strip(s) == s[i..j];
    }
  }
}
