/**
 * The few JavaScript built-ins the report page relies on whose meaning does
 * not depend on locale or Unicode tables: String.prototype.trim,
 * String.prototype.includes, the first two parts of String.prototype.split
 * with a one-character separator, and Array.prototype.slice with
 * non-negative arguments (section 23.1.3.28 of ECMA-262, 2023 edition).
 * Strings are sequences of Dafny characters.
 */
module JsRuntime {
  import opened Wrappers

  /** The WhiteSpace and LineTerminator code points that String.prototype.trim removes. */
  predicate IsTrimmable(c: char) {
    || c == '\U{0009}' || c == '\U{000B}' || c == '\U{000C}' || c == ' '
    || c == '\U{00A0}' || c == '\U{FEFF}' || c == '\U{1680}'
    || ('\U{2000}' <= c <= '\U{200A}')
    || c == '\U{202F}' || c == '\U{205F}' || c == '\U{3000}'
    || c == '\n' || c == '\r' || c == '\U{2028}' || c == '\U{2029}'
  }

  /** Drops the leading trimmable characters: the result is the suffix of s that starts with a kept one. */
  function TrimStart(s: string): (r: string)
    ensures |r| <= |s| && r == s[|s| - |r|..]
    ensures forall k :: 0 <= k < |s| - |r| ==> IsTrimmable(s[k])
    ensures r == [] || !IsTrimmable(r[0])
    decreases |s|
  {
    if s != [] && IsTrimmable(s[0]) then TrimStart(s[1..]) else s
  }

  /** Drops the trailing trimmable characters: the result is the prefix of s that ends with a kept one. */
  function TrimEnd(s: string): (r: string)
    ensures |r| <= |s| && r == s[..|r|]
    ensures forall k :: |r| <= k < |s| ==> IsTrimmable(s[k])
    ensures r == [] || !IsTrimmable(r[|r| - 1])
    decreases |s|
  {
    if s != [] && IsTrimmable(s[|s| - 1]) then TrimEnd(s[..|s| - 1]) else s
  }

  /** String.prototype.trim. */
  function Trim(s: string): (r: string)
    ensures r == [] || (!IsTrimmable(r[0]) && !IsTrimmable(r[|r| - 1]))
  {
    TrimEnd(TrimStart(s))
  }

  /** s[i..j] is what trimming leaves of s: everything outside it is trimmable. */
  ghost predicate TrimWindow(s: string, i: int, j: int) {
    && 0 <= i <= j <= |s|
    && (forall k :: 0 <= k < i ==> IsTrimmable(s[k]))
    && (forall k :: j <= k < |s| ==> IsTrimmable(s[k]))
  }

  /** Where Trim's result starts in s. */
  function TrimStartIndex(s: string): nat {
    |s| - |TrimStart(s)|
  }

  /** Trim's result is the infix of s that starts at TrimStartIndex. */
  lemma TrimIsSlice(s: string)
    ensures TrimStartIndex(s) + |Trim(s)| <= |s|
    ensures Trim(s) == s[TrimStartIndex(s)..TrimStartIndex(s) + |Trim(s)|]
  {
    var t := TrimStart(s);
    assert t == s[TrimStartIndex(s)..];
    assert Trim(s) == t[..|Trim(s)|];
  }

  /** What Trim drops from s is trimmable. */
  lemma TrimDropsTrimmable(s: string)
    ensures TrimWindow(s, TrimStartIndex(s), TrimStartIndex(s) + |Trim(s)|)
  {
    var t := TrimStart(s);
    var r := Trim(s);
    var i := TrimStartIndex(s);
    assert t == s[i..];
    forall k | i + |r| <= k < |s| ensures IsTrimmable(s[k]) {
      var k' := k - i;
      assert |r| <= k' < |t| && IsTrimmable(t[k']);
      assert t[k'] == s[k];
    }
  }

  /** Trim removes only trimmable characters, and only from the two ends: it leaves s[i..j]. */
  lemma TrimIsInfix(s: string) returns (i: nat, j: nat)
    ensures TrimWindow(s, i, j) && Trim(s) == s[i..j]
  {
    i, j := TrimStartIndex(s), TrimStartIndex(s) + |Trim(s)|;
    TrimIsSlice(s);
    TrimDropsTrimmable(s);
  }

  /** Trimming twice is the same as trimming once. */
  lemma TrimIsIdempotent(s: string)
    ensures Trim(Trim(s)) == Trim(s)
  {
    var r := Trim(s);
    assert TrimStart(r) == r;
    assert TrimEnd(r) == r;
  }

  /** s starts with t. */
  predicate StartsWith(s: string, t: string) {
    |t| <= |s| && s[..|t|] == t
  }

  /** String.prototype.includes with the start position left at 0. */
  function Includes(s: string, t: string): bool
    decreases |s|
  {
    StartsWith(s, t) || (s != [] && Includes(s[1..], t))
  }

  /** t occurs in s at position i. */
  predicate OccursAt(s: string, t: string, i: int) {
    0 <= i <= |s| - |t| && s[i..i + |t|] == t
  }

  /** Includes means that t occurs in s at some position. */
  lemma {:induction false} IncludesIff(s: string, t: string)
    ensures Includes(s, t) <==> exists i :: OccursAt(s, t, i)
    decreases |s|
  {
    if StartsWith(s, t) {
      assert OccursAt(s, t, 0);
    }
    if s == [] {
      if i :| OccursAt(s, t, i) {
        assert i == 0 && StartsWith(s, t);
      }
    } else {
      IncludesIff(s[1..], t);
      if Includes(s[1..], t) {
        var i :| OccursAt(s[1..], t, i);
        assert s[1..][i..i + |t|] == s[i + 1..i + 1 + |t|];
        assert OccursAt(s, t, i + 1);
      }
      if i :| OccursAt(s, t, i) {
        if i > 0 {
          assert s[1..][i - 1..i - 1 + |t|] == s[i..i + |t|];
          assert OccursAt(s[1..], t, i - 1);
        } else {
          assert StartsWith(s, t);
        }
      }
    }
  }

  /** A non-empty t whose first character does not occur in s is not included in s. */
  lemma {:induction false} FirstCharMissing(s: string, t: string)
    requires t != [] && t[0] !in s
    ensures !Includes(s, t)
    decreases |s|
  {
    if s != [] {
      assert forall c :: c in s[1..] ==> c in s;
      FirstCharMissing(s[1..], t);
      assert !StartsWith(s, t) by {
        if |t| <= |s| {
          assert s[..|t|][0] == s[0];
        }
      }
    }
  }

  /** Every string includes the empty string. */
  lemma IncludesEmpty(s: string)
    ensures Includes(s, "")
  {
    assert StartsWith(s, "");
  }

  /**
   * Splits s at its first sep: the part before it, and what follows it or
   * None when s holds no sep. The first two elements of s.split(sep) are
   * the first part and the first part of the rest.
   */
  function SplitFirst(s: string, sep: char): (r: (string, Option<string>))
    ensures sep !in r.0
    ensures r.1.None? ==> r.0 == s
    ensures r.1.Some? ==> s == r.0 + [sep] + r.1.value
    decreases |s|
  {
    if s == [] then ("", None)
    else if s[0] == sep then ("", Some(s[1..]))
    else
      var (head, rest) := SplitFirst(s[1..], sep);
      ([s[0]] + head, rest)
  }

  /** The parts are determined: a sep-free head followed by sep splits there. */
  lemma {:induction false} SplitFirstAt(head: string, sep: char, rest: string)
    requires sep !in head
    ensures SplitFirst(head + [sep] + rest, sep) == (head, Some(rest))
    decreases |head|
  {
    var s := head + [sep] + rest;
    if head != [] {
      assert s[0] == head[0] && s[1..] == head[1..] + [sep] + rest;
      SplitFirstAt(head[1..], sep, rest);
      assert [head[0]] + head[1..] == head;
    } else {
      assert s[1..] == rest;
    }
  }

  /** A string without sep is one part. */
  lemma {:induction false} SplitFirstNone(s: string, sep: char)
    requires sep !in s
    ensures SplitFirst(s, sep) == (s, None)
    decreases |s|
  {
    if s != [] {
      assert s[0] != sep;
      SplitFirstNone(s[1..], sep);
      assert [s[0]] + s[1..] == s;
    }
  }

  /**
   * Array.prototype.slice(start, end) for non-negative start and end: both
   * are clipped to the length, and an empty range gives the empty sequence.
   */
  function Slice<T>(s: seq<T>, start: nat, end: nat): (r: seq<T>)
    ensures start <= end ==> |r| <= end - start
    ensures start >= |s| || end <= start ==> r == []
    ensures start < end && start < |s| ==> |r| == (if end < |s| then end else |s|) - start
    ensures forall k :: 0 <= k < |r| ==> start + k < |s| && r[k] == s[start + k]
  {
    var from := if start < |s| then start else |s|;
    var to := if end < |s| then end else |s|;
    if from < to then s[from..to] else []
  }

  /** For start <= end, slice is the clipped range of s. */
  lemma SliceIsRange<T>(s: seq<T>, start: nat, end: nat)
    requires start <= end
    ensures var from := if start < |s| then start else |s|;
      var to := if end < |s| then end else |s|;
      Slice(s, start, end) == s[from..to]
  {
  }
}
