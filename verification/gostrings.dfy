/**
 * The parts of Go's `strings` and `sort` packages that the service's
 * decisions depend on: byte-wise comparison of strings, white-space
 * trimming, prefix handling, splitting on a separator and sorting a list
 * of strings.
 *
 * A Go string is a sequence of bytes, normally UTF-8; here it is a
 * sequence of Unicode scalar values. Comparing two UTF-8 encodings byte by
 * byte gives the same order as comparing their scalar values one by one,
 * so `Compare` below orders valid UTF-8 strings exactly as Go does. A Go
 * string holding bytes that are not valid UTF-8 (a URL path may) has no
 * counterpart here.
 */
module GoStrings {

  /** strings.Compare: -1, 0 or +1 by lexical order. */
  function Compare(a: string, b: string): (r: int)
    ensures -1 <= r <= 1
    ensures r == 0 <==> a == b
    ensures r < 0 ==> a != [] ==> b != []
  {
    if a == [] then (if b == [] then 0 else -1)
    else if b == [] then 1
    else if a[0] < b[0] then -1
    else if a[0] > b[0] then 1
    else Compare(a[1..], b[1..])
  }

  lemma {:induction false} CompareAntisymmetric(a: string, b: string)
    ensures Compare(b, a) == -Compare(a, b)
  {
    if a != [] && b != [] && a[0] == b[0] {
      CompareAntisymmetric(a[1..], b[1..]);
    }
  }

  lemma {:induction false} CompareTransitive(a: string, b: string, c: string)
    requires Compare(a, b) <= 0 && Compare(b, c) <= 0
    ensures Compare(a, c) <= 0
  {
    if a != [] && b != [] && c != [] && a[0] == b[0] == c[0] {
      CompareTransitive(a[1..], b[1..], c[1..]);
    }
  }

  /** A proper prefix comes first: the order is the dictionary order. */
  lemma {:induction false} PrefixComesFirst(a: string, b: string)
    requires |a| < |b| && b[..|a|] == a
    ensures Compare(a, b) < 0
  {
    if a != [] {
      assert b[1..][..|a| - 1] == a[1..];
      PrefixComesFirst(a[1..], b[1..]);
    }
  }

  /** unicode.IsSpace, which strings.TrimSpace uses. */
  predicate IsSpace(ch: char)
  {
    || ch == '\t' || ch == '\n' || ch == '\U{0B}' || ch == '\U{0C}' || ch == '\r' || ch == ' '
    || ch == '\U{85}' || ch == '\U{A0}' || ch == '\U{1680}'
    || ('\U{2000}' <= ch <= '\U{200A}')
    || ch == '\U{2028}' || ch == '\U{2029}' || ch == '\U{202F}' || ch == '\U{205F}' || ch == '\U{3000}'
  }

  predicate AllSpace(s: string)
  {
    forall i :: 0 <= i < |s| ==> IsSpace(s[i])
  }

  /** The string without its leading white space. */
  function TrimLeft(s: string): (r: string)
    ensures |r| <= |s|
  {
    if s != [] && IsSpace(s[0]) then TrimLeft(s[1..]) else s
  }

  /** The string without its trailing white space. */
  function TrimRight(s: string): (r: string)
    ensures |r| <= |s|
  {
    if s != [] && IsSpace(s[|s| - 1]) then TrimRight(s[..|s| - 1]) else s
  }

  /** TrimLeft removes a run of white space from the front, and only that. */
  lemma {:induction false} TrimLeftSpec(s: string)
    ensures TrimLeft(s) == s[|s| - |TrimLeft(s)|..]
    ensures AllSpace(s[..|s| - |TrimLeft(s)|])
    ensures TrimLeft(s) == [] || !IsSpace(TrimLeft(s)[0])
  {
    if s != [] && IsSpace(s[0]) {
      TrimLeftSpec(s[1..]);
      var n := |s| - |TrimLeft(s)|;
      assert s[..n] == [s[0]] + s[1..][..n - 1];
    }
  }

  /** TrimRight removes a run of white space from the back, and only that. */
  lemma {:induction false} TrimRightSpec(s: string)
    ensures TrimRight(s) == s[..|TrimRight(s)|]
    ensures AllSpace(s[|TrimRight(s)|..])
    ensures TrimRight(s) == [] || !IsSpace(TrimRight(s)[|TrimRight(s)| - 1])
  {
    if s != [] && IsSpace(s[|s| - 1]) {
      var init := s[..|s| - 1];
      TrimRightSpec(init);
      var n := |TrimRight(s)|;
      assert s[n..] == init[n..] + [s[|s| - 1]];
    }
  }

  /** strings.TrimSpace. */
  function TrimSpace(s: string): string
  {
    TrimRight(TrimLeft(s))
  }

  /**
   * The trimmed string is a middle part of the string with only white
   * space cut off either side; it neither starts nor ends with white
   * space, and a string that does neither is left as it is.
   */
  lemma TrimSpaceSpec(s: string)
    ensures exists i, j :: 0 <= i <= j <= |s| && AllSpace(s[..i]) && AllSpace(s[j..]) && TrimSpace(s) == s[i..j]
    ensures TrimSpace(s) == [] || (!IsSpace(TrimSpace(s)[0]) && !IsSpace(TrimSpace(s)[|TrimSpace(s)| - 1]))
    ensures (s == [] || (!IsSpace(s[0]) && !IsSpace(s[|s| - 1]))) ==> TrimSpace(s) == s
  {
    var t := TrimLeft(s);
    TrimLeftSpec(s);
    TrimRightSpec(t);
    if TrimSpace(s) != [] {
      assert TrimSpace(s)[0] == t[0];
    }
    var i := |s| - |t|;
    var j := i + |TrimSpace(s)|;
    assert TrimSpace(s) == s[i..j];
    assert s[j..] == t[|TrimSpace(s)|..];
  }

  /** Trimming leaves nothing exactly when the string is all white space. */
  lemma TrimSpaceEmpty(s: string)
    ensures TrimSpace(s) == [] <==> AllSpace(s)
  {
    var t := TrimLeft(s);
    TrimLeftSpec(s);
    TrimRightSpec(t);
    if TrimSpace(s) == [] {
      forall i | 0 <= i < |s| ensures IsSpace(s[i]) {
        assert s[i] == s[..|s| - |t|][i];
      }
    }
  }

  /** Trimming twice is trimming once. */
  lemma TrimSpaceIdempotent(s: string)
    ensures TrimSpace(TrimSpace(s)) == TrimSpace(s)
  {
    TrimSpaceSpec(s);
    TrimSpaceSpec(TrimSpace(s));
  }

  predicate HasPrefix(s: string, prefix: string)
  {
    |prefix| <= |s| && s[..|prefix|] == prefix
  }

  /** strings.TrimPrefix: drops the prefix when it is there, else changes nothing. */
  function TrimPrefix(s: string, prefix: string): (r: string)
    ensures HasPrefix(s, prefix) ==> prefix + r == s
    ensures !HasPrefix(s, prefix) ==> r == s
  {
    if HasPrefix(s, prefix) then s[|prefix|..] else s
  }

  /** strings.Contains: `sub` occurs somewhere in `s`. */
  predicate Contains(s: string, sub: string)
    decreases |s|
  {
    HasPrefix(s, sub) || (s != [] && Contains(s[1..], sub))
  }

  /** `sub` occurs in `s` exactly when `s` has it as a prefix from some position on. */
  lemma {:induction false} ContainsSpec(s: string, sub: string)
    ensures Contains(s, sub) <==> exists i :: 0 <= i <= |s| && HasPrefix(s[i..], sub)
    decreases |s|
  {
    assert s[0..] == s;
    if s != [] {
      ContainsSpec(s[1..], sub);
      forall i | 1 <= i <= |s| ensures s[i..] == s[1..][i - 1..] {}
      if exists i :: 0 <= i <= |s| && HasPrefix(s[i..], sub) {
        var i :| 0 <= i <= |s| && HasPrefix(s[i..], sub);
        if i > 0 {
          assert HasPrefix(s[1..][i - 1..], sub);
        }
      }
    }
  }

  /** An occurrence of `sub` at position `i` of `s` is found by Contains. */
  lemma {:induction false} ContainsAt(s: string, sub: string, i: nat)
    requires i + |sub| <= |s| && s[i..i + |sub|] == sub
    ensures Contains(s, sub)
  {
    if i > 0 {
      assert s[1..][i - 1..i - 1 + |sub|] == sub;
      ContainsAt(s[1..], sub, i - 1);
    }
  }

  function Count(s: string, c: char): nat
  {
    if s == [] then 0 else (if s[0] == c then 1 else 0) + Count(s[1..], c)
  }

  /**
   * strings.Split with a one-character separator: the pieces between the
   * separators, one more piece than there are separators (so the empty
   * string splits into one empty piece).
   */
  function Split(s: string, sep: char): (parts: seq<string>)
    ensures |parts| == Count(s, sep) + 1
    ensures forall i :: 0 <= i < |parts| ==> sep !in parts[i]
  {
    if s == [] then [[]]
    else
      var rest := Split(s[1..], sep);
      if s[0] == sep then [[]] + rest
      else [[s[0]] + rest[0]] + rest[1..]
  }

  /** strings.Join with a one-character separator. */
  function Join(parts: seq<string>, sep: char): string
  {
    if parts == [] then []
    else if |parts| == 1 then parts[0]
    else parts[0] + [sep] + Join(parts[1..], sep)
  }

  /** Splitting loses nothing: joining the pieces gives the string back. */
  lemma {:induction false} JoinSplit(s: string, sep: char)
    ensures Join(Split(s, sep), sep) == s
  {
    if s != [] {
      var rest := Split(s[1..], sep);
      JoinSplit(s[1..], sep);
      if s[0] != sep {
        if |rest| == 1 {
          assert Split(s, sep) == [[s[0]] + rest[0]];
        } else {
          assert Split(s, sep)[1..] == rest[1..];
        }
      }
    }
  }

  /** Joining pieces free of the separator and splitting again gives the pieces back. */
  lemma {:induction false} SplitJoin(parts: seq<string>, sep: char)
    requires |parts| >= 1
    requires forall i :: 0 <= i < |parts| ==> sep !in parts[i]
    ensures Split(Join(parts, sep), sep) == parts
  {
    if |parts| == 1 {
      SplitNoSeparator(parts[0], sep);
    } else {
      SplitJoin(parts[1..], sep);
      SplitAfterPiece(parts[0], Join(parts[1..], sep), sep);
    }
  }

  lemma {:induction false} SplitNoSeparator(s: string, sep: char)
    requires sep !in s
    ensures Split(s, sep) == [s]
  {
    if s != [] {
      SplitNoSeparator(s[1..], sep);
      assert [s[0]] + s[1..] == s;
    }
  }

  lemma {:induction false} SplitAfterPiece(p: string, t: string, sep: char)
    requires sep !in p
    ensures Split(p + [sep] + t, sep) == [p] + Split(t, sep)
  {
    if p == [] {
      assert ([sep] + t)[1..] == t;
    } else {
      var w := p + [sep] + t;
      assert w[0] == p[0] && w[1..] == p[1..] + [sep] + t;
      SplitAfterPiece(p[1..], t, sep);
      assert [p[0]] + p[1..] == p;
    }
  }
}

/**
 * sort.Strings: the list in ascending lexical order.
 */
module GoSort {
  import opened GoStrings

  predicate Sorted(s: seq<string>)
  {
    forall i, j :: 0 <= i < j < |s| ==> Compare(s[i], s[j]) <= 0
  }

  /** Every element of `s` occurs at most once. */
  ghost predicate Distinct(s: seq<string>)
  {
    forall k :: multiset(s)[k] <= 1
  }

  /** Puts `x` into its place in a sorted list. */
  function Insert(x: string, s: seq<string>): (r: seq<string>)
    requires Sorted(s)
    ensures Sorted(r)
    ensures multiset(r) == multiset(s) + multiset{x}
  {
    if s == [] then [x]
    else if Compare(x, s[0]) <= 0 then
      InsertFront(x, s);
      [x] + s
    else
      TailOf(s);
      var t := Insert(x, s[1..]);
      InsertBehind(x, s, t);
      [s[0]] + t
  }

  lemma InsertFront(x: string, s: seq<string>)
    requires Sorted(s) && s != [] && Compare(x, s[0]) <= 0
    ensures Sorted([x] + s)
  {
    forall j | 0 < j < |s| ensures Compare(x, s[j]) <= 0 {
      CompareTransitive(x, s[0], s[j]);
    }
  }

  lemma InsertBehind(x: string, s: seq<string>, t: seq<string>)
    requires Sorted(s) && s != [] && Compare(x, s[0]) > 0
    requires Sorted(t) && multiset(t) == multiset(s[1..]) + multiset{x}
    ensures Sorted([s[0]] + t)
    ensures multiset([s[0]] + t) == multiset(s) + multiset{x}
  {
    CompareAntisymmetric(x, s[0]);
    assert s == [s[0]] + s[1..];
    forall j | 0 <= j < |t| ensures Compare(s[0], t[j]) <= 0 {
      assert t[j] in multiset(t);
      if t[j] != x {
        assert t[j] in multiset(s[1..]);
        var k :| 0 <= k < |s[1..]| && s[1..][k] == t[j];
        assert s[k + 1] == t[j];
      }
    }
  }

  /** sort.Strings, as an insertion sort over the list. */
  method SortStrings(keys: seq<string>) returns (sorted: seq<string>)
    ensures Sorted(sorted)
    ensures multiset(sorted) == multiset(keys)
  {
    sorted := [];
    for i := 0 to |keys|
      invariant Sorted(sorted)
      invariant multiset(sorted) == multiset(keys[..i])
    {
      assert keys[..i + 1] == keys[..i] + [keys[i]];
      sorted := Insert(keys[i], sorted);
    }
    assert keys[..|keys|] == keys;
  }

  /**
   * A sorted list is determined by its elements: whatever order the
   * input came in, sorting it gives the same list.
   */
  lemma {:induction false} SortedUnique(s: seq<string>, t: seq<string>)
    requires Sorted(s) && Sorted(t)
    requires multiset(s) == multiset(t)
    ensures s == t
  {
    if s != [] {
      assert |t| == |s| by {
        assert |multiset(t)| == |multiset(s)|;
      }
      HeadIsLeast(s, t[0]);
      HeadIsLeast(t, s[0]);
      CompareAntisymmetric(s[0], t[0]);
      TailOf(s);
      TailOf(t);
      SortedUnique(s[1..], t[1..]);
    }
  }

  /** The tail of a sorted list is sorted and holds the other elements. */
  lemma TailOf(s: seq<string>)
    requires Sorted(s) && s != []
    ensures Sorted(s[1..])
    ensures multiset(s[1..]) == multiset(s) - multiset{s[0]}
  {
    assert s == [s[0]] + s[1..];
  }

  lemma HeadIsLeast(s: seq<string>, x: string)
    requires Sorted(s) && x in multiset(s)
    ensures Compare(s[0], x) <= 0
  {
  }
}
