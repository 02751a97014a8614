/**
 The few java.lang.String operations that MagParse relies on, written out with
 Java's semantics for a single-character pattern: indexOf / lastIndexOf,
 replaceFirst, replace with the empty string, trim and split.
 */
module JavaStrings {

  /** String.trim() removes every char whose code is at most U+0020. */
  predicate IsTrimmable(c: char) {
    c <= ' '
  }

  predicate AllTrimmable(s: string) {
    forall j :: 0 <= j < |s| ==> IsTrimmable(s[j])
  }

  /** A string with no trimmable char at either end. */
  predicate IsTrimmed(s: string) {
    s == [] || (!IsTrimmable(s[0]) && !IsTrimmable(s[|s| - 1]))
  }

  /** s.indexOf(c): the first position of c, or -1. */
  function IndexOf(s: string, c: char): (r: int)
    ensures -1 <= r < |s|
    ensures r == -1 <==> c !in s
    ensures r >= 0 ==> s[r] == c && forall j :: 0 <= j < r ==> s[j] != c
  {
    IndexFrom(s, c, 0)
  }

  /** The scan of indexOf from position i on. */
  function IndexFrom(s: string, c: char, i: nat): (r: int)
    requires i <= |s|
    ensures r == -1 || i <= r < |s|
    ensures r >= 0 ==> s[r] == c && forall j :: i <= j < r ==> s[j] != c
    ensures r == -1 ==> forall j :: i <= j < |s| ==> s[j] != c
    decreases |s| - i
  {
    if i == |s| then -1
    else if s[i] == c then i
    else IndexFrom(s, c, i + 1)
  }

  /** s.lastIndexOf(c): the last position of c, or -1. */
  function LastIndexOf(s: string, c: char): (r: int)
    ensures -1 <= r < |s|
    ensures r == -1 <==> c !in s
    ensures r >= 0 ==> s[r] == c && forall j :: r < j < |s| ==> s[j] != c
  {
    LastIndexBefore(s, c, |s|)
  }

  /** The backward scan of lastIndexOf over the positions before n. */
  function LastIndexBefore(s: string, c: char, n: nat): (r: int)
    requires n <= |s|
    ensures -1 <= r < n
    ensures r >= 0 ==> s[r] == c && forall j :: r < j < n ==> s[j] != c
    ensures r == -1 ==> forall j :: 0 <= j < n ==> s[j] != c
  {
    if n == 0 then -1
    else if s[n - 1] == c then n - 1
    else LastIndexBefore(s, c, n - 1)
  }

  /** s.replaceFirst(from, to) for a one-character literal pattern. */
  function ReplaceFirst(s: string, from: char, to: char): (r: string)
    ensures |r| == |s|
    ensures from !in s ==> r == s
    ensures from in s ==>
              var k := IndexOf(s, from);
              r[..k] == s[..k] && r[k] == to && r[k + 1..] == s[k + 1..]
  {
    if |s| == 0 then s
    else if s[0] == from then [to] + s[1..]
    else
      var t := ReplaceFirst(s[1..], from, to);
      assert from in s ==> from in s[1..];
      [s[0]] + t
  }

  /** s.replace(c, "") : every occurrence of c deleted. */
  function RemoveAll(s: string, c: char): (r: string) {
    if |s| == 0 then s
    else
      var t := RemoveAll(s[1..], c);
      if s[0] == c then t else [s[0]] + t
  }

  /** No c is left. */
  lemma {:induction false} RemoveAllOmits(s: string, c: char)
    ensures c !in RemoveAll(s, c)
    decreases |s|
  {
    if |s| > 0 {
      RemoveAllOmits(s[1..], c);
    }
  }

  /** A string without c is left unchanged. */
  lemma {:induction false} RemoveAllAbsent(s: string, c: char)
    requires c !in s
    ensures RemoveAll(s, c) == s
    decreases |s|
  {
    if |s| > 0 {
      assert c !in s[1..];
      RemoveAllAbsent(s[1..], c);
    }
  }

  /** replace(c, "") keeps every other char, as many times as it occurs. */
  lemma {:induction false} RemoveAllCounts(s: string, c: char)
    ensures multiset(RemoveAll(s, c)) == multiset(s)[c := 0]
    decreases |s|
  {
    if |s| > 0 {
      RemoveAllCounts(s[1..], c);
      assert s == [s[0]] + s[1..];
    }
  }

  /** The leading part of trim(). */
  function TrimStart(s: string): (r: string) {
    if |s| > 0 && IsTrimmable(s[0]) then TrimStart(s[1..]) else s
  }

  /** The trailing part of trim(). */
  function TrimEnd(s: string): (r: string) {
    if |s| > 0 && IsTrimmable(s[|s| - 1]) then TrimEnd(s[..|s| - 1]) else s
  }

  /** s.trim(). */
  function Trim(s: string): (r: string) {
    TrimEnd(TrimStart(s))
  }

  /** TrimStart drops a run of trimmable chars from the front, and only those. */
  lemma {:induction false} TrimStartShape(s: string)
    ensures var r := TrimStart(s);
            |r| <= |s| && r == s[|s| - |r|..] &&
            (r == [] || !IsTrimmable(r[0])) && AllTrimmable(s[..|s| - |r|])
    decreases |s|
  {
    if |s| > 0 && IsTrimmable(s[0]) {
      TrimStartShape(s[1..]);
      var t := TrimStart(s[1..]);
      assert s[..|s| - |t|] == [s[0]] + s[1..][..|s| - 1 - |t|];
    }
  }

  /** TrimEnd drops a run of trimmable chars from the back, and only those. */
  lemma {:induction false} TrimEndShape(s: string)
    ensures var r := TrimEnd(s);
            |r| <= |s| && r == s[..|r|] &&
            (r == [] || !IsTrimmable(r[|r| - 1])) && AllTrimmable(s[|r|..])
    decreases |s|
  {
    if |s| > 0 && IsTrimmable(s[|s| - 1]) {
      TrimEndShape(s[..|s| - 1]);
      var t := TrimEnd(s[..|s| - 1]);
      assert s[|t|..] == s[..|s| - 1][|t|..] + [s[|s| - 1]];
    }
  }

  /** trim() yields a trimmed string no longer than its argument. */
  lemma TrimShape(s: string)
    ensures |Trim(s)| <= |s| && IsTrimmed(Trim(s))
  {
    TrimStartShape(s);
    var t := TrimStart(s);
    TrimEndShape(t);
    var r := TrimEnd(t);
    if r != [] {
      assert r[0] == t[0];
    }
  }

  /** All pieces of s between occurrences of sep, empty ones included. */
  function Pieces(s: string, sep: char): (r: seq<string>)
    ensures |r| >= 1
    decreases |s|
  {
    var k := IndexOf(s, sep);
    if k < 0 then [s] else [s[..k]] + Pieces(s[k + 1..], sep)
  }

  /** The pieces glued back together with sep between them. */
  function Join(ps: seq<string>, sep: char): (r: string)
  {
    if |ps| == 0 then []
    else if |ps| == 1 then ps[0]
    else ps[0] + [sep] + Join(ps[1..], sep)
  }

  /** Removes the empty strings at the end of a list of pieces. */
  function DropTrailingEmpty(ps: seq<string>): (r: seq<string>)
    ensures |r| <= |ps| && r == ps[..|r|]
    ensures r == [] || r[|r| - 1] != []
    ensures forall j :: |r| <= j < |ps| ==> ps[j] == []
  {
    ps[..KeptLength(ps, |ps|)]
  }

  /** The length of ps[..n] once its trailing empty strings are removed. */
  function KeptLength(ps: seq<string>, n: nat): (m: nat)
    requires n <= |ps|
    ensures m <= n
    ensures m == 0 || ps[m - 1] != []
    ensures forall j :: m <= j < n ==> ps[j] == []
  {
    if n > 0 && ps[n - 1] == [] then KeptLength(ps, n - 1) else n
  }

  /**
   s.split(sep) with limit 0: when sep does not occur the whole string is the
   only element; otherwise the pieces, with trailing empty strings removed.
   */
  function Split(s: string, sep: char): (r: seq<string>) {
    if sep !in s then [s] else DropTrailingEmpty(Pieces(s, sep))
  }

  // ---------------------------------------------------------------------
  // Properties

  /** Splitting and joining are inverse: the pieces are a decomposition of s. */
  lemma {:induction false} JoinPieces(s: string, sep: char)
    ensures Join(Pieces(s, sep), sep) == s
    decreases |s|
  {
    var k := IndexOf(s, sep);
    if k >= 0 {
      var pr := Pieces(s[k + 1..], sep);
      assert Pieces(s, sep) == [s[..k]] + pr;
      JoinCons(s[..k], pr, sep);
      JoinPieces(s[k + 1..], sep);
      SplitAt(s, k);
    }
  }

  /** No piece holds the separator. */
  lemma {:induction false} PiecesSeparatorFree(s: string, sep: char)
    ensures forall p :: p in Pieces(s, sep) ==> sep !in p
    decreases |s|
  {
    var k := IndexOf(s, sep);
    if k >= 0 {
      var head := s[..k];
      assert sep !in head by {
        forall j | 0 <= j < |head| ensures head[j] != sep { assert head[j] == s[j]; }
      }
      PiecesSeparatorFree(s[k + 1..], sep);
      assert Pieces(s, sep) == [head] + Pieces(s[k + 1..], sep);
    }
  }

  /** No element of split's result holds the separator. */
  lemma SplitSeparatorFree(s: string, sep: char)
    ensures forall p :: p in Split(s, sep) ==> sep !in p
  {
    if sep in s {
      PiecesSeparatorFree(s, sep);
      var ps := Pieces(s, sep);
      var r := DropTrailingEmpty(ps);
      forall p | p in r ensures sep !in p {
        var j :| 0 <= j < |r| && r[j] == p;
        assert ps[j] == p;
      }
    }
  }

  /** A string is the text before position k, the char at k, and the text after it. */
  lemma SplitAt(s: string, k: nat)
    requires k < |s|
    ensures s == s[..k] + [s[k]] + s[k + 1..]
  {
  }

  lemma JoinCons(head: string, ps: seq<string>, sep: char)
    requires |ps| >= 1
    ensures Join([head] + ps, sep) == head + [sep] + Join(ps, sep)
  {
    assert ([head] + ps)[1..] == ps;
  }

  /** The pieces of a string with a sep-free head are that head, then the pieces of the rest. */
  lemma PiecesAfterHead(a: string, sep: char, b: string)
    requires sep !in a
    ensures Pieces(a + [sep] + b, sep) == [a] + Pieces(b, sep)
  {
    var s := a + [sep] + b;
    var k := IndexOf(s, sep);
    assert s[|a|] == sep;
    forall j | 0 <= j < |a| ensures s[j] != sep {
      assert s[j] == a[j];
    }
    assert k == |a|;
    assert s[..k] == a && s[k + 1..] == b;
  }

  /** Splitting "a/b" where neither side holds the separator. */
  lemma SplitTwo(a: string, sep: char, b: string)
    requires sep !in a && sep !in b
    ensures Split(a + [sep] + b, sep) ==
              if b != [] then [a, b] else if a != [] then [a] else []
  {
    var s := a + [sep] + b;
    assert s[|a|] == sep;
    PiecesAfterHead(a, sep, b);
    assert Pieces(b, sep) == [b];
    assert Pieces(s, sep) == [a, b];
    if b == [] {
      assert KeptLength([a, b], 2) == KeptLength([a, b], 1);
    }
  }

  /**
   When sep occurs in s and s does not end with sep, Split keeps at least two
   pieces: the text before the first sep, and the text between the first and
   the next sep (or the end).
   */
  lemma SplitFirstTwo(s: string, sep: char)
    requires sep in s && s[|s| - 1] != sep
    ensures var k := IndexOf(s, sep);
            var rest := s[k + 1..];
            var m := IndexOf(rest, sep);
            var r := Split(s, sep);
            |r| >= 2 && r[0] == s[..k] && r[1] == (if m < 0 then rest else rest[..m])
  {
    var k := IndexOf(s, sep);
    var rest := s[k + 1..];
    PiecesAtFirst(s, sep, k);
    LastOfRest(s, k);
    LastPieceNonEmpty(rest, sep);
    KeepNonEmptyLast([s[..k]], Pieces(rest, sep));
    PiecesHead(rest, sep);
  }

  /** Where sep occurs, the pieces are the text before it, then the pieces of the rest. */
  lemma PiecesAtFirst(s: string, sep: char, k: int)
    requires k == IndexOf(s, sep) && k >= 0
    ensures Pieces(s, sep) == [s[..k]] + Pieces(s[k + 1..], sep)
  {
  }

  /** The text after position k ends as s does. */
  lemma LastOfRest(s: string, k: nat)
    requires k < |s| - 1
    ensures s[k + 1..] != [] && s[k + 1..][|s[k + 1..]| - 1] == s[|s| - 1]
  {
  }

  /** The first piece runs up to the first sep, or is the whole string. */
  lemma PiecesHead(s: string, sep: char)
    ensures var k := IndexOf(s, sep);
            Pieces(s, sep)[0] == if k < 0 then s else s[..k]
  {
  }

  /** Nothing is dropped from a list of pieces whose last one is non-empty. */
  lemma KeepNonEmptyLast(a: seq<string>, b: seq<string>)
    requires |b| >= 1 && b[|b| - 1] != []
    ensures DropTrailingEmpty(a + b) == a + b
  {
  }

  /** The last piece of a non-empty string that does not end with sep is non-empty. */
  lemma {:induction false} LastPieceNonEmpty(s: string, sep: char)
    requires s != [] && s[|s| - 1] != sep
    ensures var ps := Pieces(s, sep); ps[|ps| - 1] != []
    decreases |s|
  {
    var k := IndexOf(s, sep);
    if k >= 0 {
      var rest := s[k + 1..];
      assert k != |s| - 1;
      assert rest[|rest| - 1] == s[|s| - 1];
      LastPieceNonEmpty(rest, sep);
    }
  }

  /** trim() returns the core of a string padded on both sides with trimmable chars. */
  lemma TrimPadded(a: string, b: string, c: string)
    requires AllTrimmable(a) && AllTrimmable(c) && IsTrimmed(b)
    ensures Trim(a + b + c) == b
  {
    TrimStartPadded(a, b + c, b);
    assert a + b + c == a + (b + c);
    TrimEndPadded(b, c);
  }

  lemma {:induction false} TrimStartPadded(a: string, t: string, b: string)
    requires AllTrimmable(a) && IsTrimmed(b) && |b| <= |t| && t[..|b|] == b
    requires b == [] ==> AllTrimmable(t)
    ensures TrimStart(a + t) == if b == [] then [] else t
    decreases |a| + |t|
  {
    var s := a + t;
    if |a| > 0 {
      assert s[1..] == a[1..] + t;
      TrimStartPadded(a[1..], t, b);
    } else if b == [] {
      assert s == t;
      if |t| > 0 {
        assert s[1..] == [] + t[1..];
        TrimStartPadded([], t[1..], []);
      }
    } else {
      assert s == t && t[0] == b[0];
    }
  }

  lemma {:induction false} TrimEndPadded(b: string, c: string)
    requires AllTrimmable(c) && IsTrimmed(b)
    ensures TrimEnd(b + c) == b
    decreases |c|
  {
    var s := b + c;
    if |c| > 0 {
      assert s[..|s| - 1] == b + c[..|c| - 1];
      TrimEndPadded(b, c[..|c| - 1]);
    } else {
      assert s == b;
    }
  }

  /** trim() leaves a trimmed string alone. */
  lemma TrimOfTrimmed(s: string)
    requires IsTrimmed(s)
    ensures Trim(s) == s
  {
    TrimPadded([], s, []);
    assert [] + s + [] == s;
  }

  /** trim() is idempotent. */
  lemma TrimIdempotent(s: string)
    ensures Trim(Trim(s)) == Trim(s)
  {
    var t := Trim(s);
    TrimShape(s);
    TrimPadded([], t, []);
    assert [] + t + [] == t;
  }

  /** replace(c, "") distributes over concatenation. */
  lemma {:induction false} RemoveAllConcat(a: string, b: string, c: char)
    ensures RemoveAll(a + b, c) == RemoveAll(a, c) + RemoveAll(b, c)
    decreases |a|
  {
    if |a| > 0 {
      assert (a + b)[1..] == a[1..] + b;
      RemoveAllConcat(a[1..], b, c);
    } else {
      assert a + b == b;
    }
  }

  /** indexOf is pinned down by its contract: a c at k with none before it is the first one. */
  lemma IndexOfUnique(s: string, c: char, k: nat)
    requires k < |s| && s[k] == c && forall j :: 0 <= j < k ==> s[j] != c
    ensures IndexOf(s, c) == k
  {
  }

  /** lastIndexOf is pinned down by its contract: a c at k with none after it is the last one. */
  lemma LastIndexOfUnique(s: string, c: char, k: nat)
    requires k < |s| && s[k] == c && forall j :: k < j < |s| ==> s[j] != c
    ensures LastIndexOf(s, c) == k
  {
  }

  /** trim() keeps only chars of its argument. */
  lemma TrimKeepsOut(s: string, c: char)
    requires c !in s
    ensures c !in Trim(s)
  {
    var t := TrimStart(s);
    TrimStartShape(s);
    TrimEndShape(t);
    forall j | 0 <= j < |t| ensures t[j] != c {
      assert t[j] == s[|s| - |t| + j];
    }
    var r := TrimEnd(t);
    forall j | 0 <= j < |r| ensures r[j] != c {
      assert r[j] == t[..|r|][j];
    }
  }

  /** trim() of a string with a non-blank char somewhere is not empty. */
  lemma TrimNonEmpty(s: string, j: nat)
    requires j < |s| && !IsTrimmable(s[j])
    ensures Trim(s) != []
  {
    var t := TrimStart(s);
    TrimStartShape(s);
    TrimEndShape(t);
    var off := |s| - |t|;
    forall i | 0 <= i < off ensures IsTrimmable(s[i]) {
      assert s[..off][i] == s[i];
    }
    assert t[j - off] == s[j];
    var r := TrimEnd(t);
    forall i | |r| <= i < |t| ensures IsTrimmable(t[i]) {
      assert t[|r|..][i - |r|] == t[i];
    }
  }

  /** A leading blank does not change trim(). */
  lemma TrimDropsLeadingBlank(x: char, s: string)
    requires IsTrimmable(x)
    ensures Trim([x] + s) == Trim(s)
  {
    assert ([x] + s)[1..] == s;
  }
}
