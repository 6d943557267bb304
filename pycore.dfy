/**
 * The pieces of Python's built-in behaviour that the scheduling and cleanup
 * code relies on: integer `%` and `int(a / b)` (whose rounding differs from
 * Dafny's Euclidean operators for negative operands), `str.split`, ASCII
 * lower-casing, substring tests, and the ZeroDivisionError that `%` and `/`
 * raise on a zero divisor.
 */
module PyCore {

  /** The only exception the modelled code can raise on its own. */
  datatype Error = ZeroDivisionError

  datatype Result<T> = Ok(value: T) | Err(error: Error) {
    predicate IsFailure() { Err? }

    function PropagateFailure<U>(): Result<U>
      requires Err?
    {
      Err(error)
    }

    function Extract(): T
      requires Ok?
    {
      value
    }
  }

  datatype Option<T> = None | Some(value: T) {
    function GetOr(default: T): T {
      match this
      case Some(v) => v
      case None => default
    }
  }

  function Abs(x: int): nat { if x < 0 then -x else x }

  /** A non-zero multiple of `b` is at least as large as `b` in magnitude. */
  lemma MulAtLeast(b: int, t: int)
    requires t != 0
    ensures Abs(b * t) >= Abs(b)
  {
    MulMonotone(1, Abs(t), Abs(b));
    assert Abs(b * t) == Abs(t) * Abs(b) by {
      if b < 0 { assert b * t == -(Abs(b) * t); }
      if t < 0 { assert Abs(b) * t == -(Abs(b) * Abs(t)); }
    }
  }

  /** Euclidean division is unique: any `q`, `r` with `a == b * q + r` and `0 <= r < |b|` are `a / b` and `a % b`. */
  lemma DivModUnique(a: int, b: int, q: int, r: int)
    requires b != 0 && a == b * q + r && 0 <= r < Abs(b)
    ensures a / b == q && a % b == r
  {
    var q0, r0 := a / b, a % b;
    assert a == b * q0 + r0;
    assert b * (q - q0) == r0 - r by { assert b * (q - q0) == b * q - b * q0; }
    if q != q0 {
      MulAtLeast(b, q - q0);
      assert false;
    }
  }

  /** Multiplying by a non-negative factor keeps the order. */
  lemma MulMonotone(x: int, y: int, c: int)
    requires x <= y && c >= 0
    ensures x * c <= y * c
  {
    assert y * c - x * c == (y - x) * c;
  }

  /**
   * Python's `a % b`: the remainder has the sign of the divisor, and `a - r`
   * is a multiple of `b`.
   */
  function FloorMod(a: int, b: int): (r: int)
    requires b != 0
    ensures b > 0 ==> 0 <= r < b
    ensures b < 0 ==> b < r <= 0
    ensures (a - r) % b == 0
  {
    var m := a % b;
    var q := a / b;
    if b > 0 || m == 0 then
      DivModUnique(a - m, b, q, 0);
      m
    else
      DivModUnique(a - (m + b), b, q - 1, 0);
      m + b
  }

  /**
   * Python's `int(a / b)`: true division truncated toward zero (the float
   * rounding of `/` is not modelled).
   */
  function TruncDiv(a: int, b: int): (q: int)
    requires b != 0
    ensures 0 <= a && 0 < b ==> q * b <= a < q * b + b
    ensures Abs(q) * Abs(b) <= Abs(a) < Abs(q) * Abs(b) + Abs(b)
    ensures q < 0 ==> (a < 0) != (b < 0)
    ensures (a < 0) != (b < 0) ==> q <= 0
  {
    var q := Abs(a) / Abs(b);
    DivBounds(Abs(a), Abs(b));
    if (a < 0) == (b < 0) then q else -q
  }

  /** The quotient of natural division is a natural number bracketing the dividend. */
  lemma DivBounds(x: nat, y: int)
    requires y > 0
    ensures x / y >= 0
    ensures (x / y) * y <= x < (x / y) * y + y
  {
    assert x == y * (x / y) + x % y;
  }

  /** `s.split(sep)` for a one-character separator. */
  function Split(s: string, sep: char): (parts: seq<string>)
    ensures |parts| >= 1
    ensures forall k :: 0 <= k < |parts| ==> sep !in parts[k]
    decreases |s|
  {
    if |s| == 0 then [""]
    else
      var rest := Split(s[1..], sep);
      if s[0] == sep then [""] + rest
      else [[s[0]] + rest[0]] + rest[1..]
  }

  /** `sep.join(parts)`. */
  function Join(parts: seq<string>, sep: char): string
    requires |parts| >= 1
    decreases |parts|
  {
    if |parts| == 1 then parts[0] else parts[0] + [sep] + Join(parts[1..], sep)
  }

  /** Joining the fields of a split gives back the original string. */
  lemma {:induction false} JoinSplit(s: string, sep: char)
    ensures Join(Split(s, sep), sep) == s
    decreases |s|
  {
    if |s| > 0 {
      var rest := Split(s[1..], sep);
      JoinSplit(s[1..], sep);
      if s[0] == sep {
        assert Split(s, sep) == [""] + rest;
        assert ([""] + rest)[1..] == rest;
      } else {
        var parts := [[s[0]] + rest[0]] + rest[1..];
        assert Split(s, sep) == parts;
        if |rest| == 1 {
          assert Join(parts, sep) == [s[0]] + rest[0] == [s[0]] + Join(rest, sep);
        } else {
          assert parts[1..] == rest[1..];
          assert Join(parts, sep) == [s[0]] + (rest[0] + [sep] + Join(rest[1..], sep));
        }
        assert s == [s[0]] + s[1..];
      }
    }
  }

  /** Splitting a string whose first separator follows `head` peels `head` off as the first field. */
  lemma {:induction false} SplitAfterHead(head: string, sep: char, tail: string)
    requires sep !in head
    ensures Split(head + [sep] + tail, sep) == [head] + Split(tail, sep)
    decreases |head|
  {
    var s := head + [sep] + tail;
    if |head| == 0 {
      assert s == [sep] + tail;
      assert s[1..] == tail;
    } else {
      assert s[1..] == head[1..] + [sep] + tail;
      SplitAfterHead(head[1..], sep, tail);
      assert [head[0]] + head[1..] == head;
    }
  }

  /** A string without the separator is a single field. */
  lemma {:induction false} SplitNoSeparator(s: string, sep: char)
    requires sep !in s
    ensures Split(s, sep) == [s]
    decreases |s|
  {
    if |s| > 0 {
      SplitNoSeparator(s[1..], sep);
      assert [s[0]] + s[1..] == s;
    }
  }

  /** Splitting the join of separator-free fields gives back the fields. */
  lemma {:induction false} SplitJoin(parts: seq<string>, sep: char)
    requires |parts| >= 1
    requires forall k :: 0 <= k < |parts| ==> sep !in parts[k]
    ensures Split(Join(parts, sep), sep) == parts
    decreases |parts|
  {
    if |parts| == 1 {
      SplitNoSeparator(parts[0], sep);
    } else {
      SplitJoin(parts[1..], sep);
      SplitAfterHead(parts[0], sep, Join(parts[1..], sep));
      assert [parts[0]] + parts[1..] == parts;
    }
  }

  /** A separator-free head is glued onto the first field of what follows it. */
  lemma {:induction false} SplitHeadAppend(head: string, sep: char, tail: string)
    requires sep !in head
    ensures Split(head + tail, sep)[0] == head + Split(tail, sep)[0]
    decreases |head|
  {
    if |head| > 0 {
      assert (head + tail)[1..] == head[1..] + tail;
      SplitHeadAppend(head[1..], sep, tail);
      assert [head[0]] + head[1..] == head;
    } else {
      assert head + tail == tail;
    }
  }

  /** The first field is a prefix of the string. */
  lemma {:induction false} SplitHeadIsPrefix(s: string, sep: char)
    ensures Split(s, sep)[0] <= s
    decreases |s|
  {
    if |s| > 0 && s[0] != sep {
      SplitHeadIsPrefix(s[1..], sep);
      assert s == [s[0]] + s[1..];
    }
  }

  /** A string holding the separator splits into at least two fields. */
  lemma {:induction false} SplitAtSeparator(s: string, sep: char)
    requires sep in s
    ensures |Split(s, sep)| > 1
    decreases |s|
  {
    if s[0] != sep {
      assert sep in s[1..] by {
        var k :| 0 <= k < |s| && s[k] == sep;
        assert s[1..][k - 1] == sep;
      }
      SplitAtSeparator(s[1..], sep);
    }
  }

  /** ASCII lower-casing of one character. */
  function LowerChar(c: char): char {
    if 'A' <= c <= 'Z' then (c as int + 32) as char else c
  }

  /** `s.lower()` restricted to ASCII letters. */
  function Lower(s: string): (r: string)
    ensures |r| == |s|
    ensures forall k :: 0 <= k < |s| ==> r[k] == LowerChar(s[k])
  {
    seq(|s|, k requires 0 <= k < |s| => LowerChar(s[k]))
  }

  /** `s.endswith(suffix)`. */
  function EndsWith(s: string, suffix: string): (r: bool)
    ensures r <==> |suffix| <= |s| && forall k :: 0 <= k < |suffix| ==> s[|s| - |suffix| + k] == suffix[k]
  {
    |suffix| <= |s| && s[|s| - |suffix|..] == suffix
  }

  /** `sub in s` for strings: `sub` occurs at some position of `s`. */
  function Contains(s: string, sub: string): (r: bool)
    ensures r <==> exists at :: OccursAt(s, sub, at)
    decreases |s|
  {
    if |sub| > |s| then false
    else if s[..|sub|] == sub then
      assert OccursAt(s, sub, 0);
      true
    else
      OccursInTail(s, sub);
      Contains(s[1..], sub)
  }

  /** `sub` stands in `s` at position `at`. */
  predicate OccursAt(s: string, sub: string, at: int) {
    0 <= at && at + |sub| <= |s| && s[at..at + |sub|] == sub
  }

  /** When `sub` is not a prefix of `s`, it occurs in `s` exactly when it occurs in `s[1..]`. */
  lemma OccursInTail(s: string, sub: string)
    requires |sub| <= |s| && s[..|sub|] != sub
    ensures (exists at :: OccursAt(s, sub, at)) <==> (exists at :: OccursAt(s[1..], sub, at))
  {
    if at :| OccursAt(s, sub, at) {
      assert at != 0;
      assert s[1..][at - 1..at - 1 + |sub|] == s[at..at + |sub|];
      assert OccursAt(s[1..], sub, at - 1);
    }
    if at :| OccursAt(s[1..], sub, at) {
      assert s[at + 1..at + 1 + |sub|] == s[1..][at..at + |sub|];
      assert OccursAt(s, sub, at + 1);
    }
  }

  /** A string that holds `sub` at position `at` contains it. */
  lemma ContainsAt(s: string, sub: string, at: nat)
    requires at + |sub| <= |s| && s[at..at + |sub|] == sub
    ensures Contains(s, sub)
  {
    assert OccursAt(s, sub, at);
  }

  /** A string lacking one of the characters of `sub` does not contain `sub`. */
  lemma {:induction false} NotContainsMissingChar(s: string, sub: string, c: char)
    requires c in sub && c !in s
    ensures !Contains(s, sub)
    decreases |s|
  {
    if |sub| <= |s| {
      assert c !in s[1..] by {
        forall k | 0 <= k < |s| - 1 ensures s[1..][k] != c { assert s[1..][k] == s[k + 1]; }
      }
      NotContainsMissingChar(s[1..], sub, c);
    }
  }
}
