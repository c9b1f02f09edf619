/**
 * Models of the JavaScript string operations the core relies on:
 * `toLowerCase` (restricted to ASCII letters), `indexOf`, `split` with a
 * non-empty string separator, and `Array.prototype.join` as its inverse.
 */
module JsString {
  import opened Wrappers

  predicate IsUpper(c: char)
  {
    'A' <= c <= 'Z'
  }

  /** The lower-case form of one character: A-Z become a-z, every other character is kept. */
  function LowerChar(c: char): char
  {
    if IsUpper(c) then (c as int + 32) as char else c
  }

  /** `s.toLowerCase()`, for the ASCII letters. */
  function Lower(s: string): (r: string)
    ensures |r| == |s|
    ensures forall i :: 0 <= i < |s| ==> !IsUpper(r[i])
    ensures forall i :: 0 <= i < |s| && !IsUpper(s[i]) ==> r[i] == s[i]
    ensures forall i :: 0 <= i < |s| && IsUpper(s[i]) ==> r[i] as int == s[i] as int + 32
  {
    seq(|s|, i requires 0 <= i < |s| => LowerChar(s[i]))
  }

  /** A string is its own lower-case form exactly when it holds no upper-case letter. */
  lemma LowerFixpoint(s: string)
    ensures Lower(s) == s <==> forall i :: 0 <= i < |s| ==> !IsUpper(s[i])
  {
    if forall i :: 0 <= i < |s| ==> !IsUpper(s[i]) {
      assert forall i :: 0 <= i < |s| ==> Lower(s)[i] == s[i];
    }
  }

  /** Lower-casing twice is lower-casing once. */
  lemma LowerIdempotent(s: string)
    ensures Lower(Lower(s)) == Lower(s)
  {
    LowerFixpoint(Lower(s));
  }

  /** `sep` occurs in `s` starting at position `j`. */
  predicate OccursAt(s: string, sep: string, j: int)
  {
    0 <= j && j + |sep| <= |s| && s[j..j + |sep|] == sep
  }

  lemma OccursAtTail(s: string, sep: string)
    requires |s| > 0
    ensures forall j: int :: 0 <= j ==> (OccursAt(s, sep, j + 1) <==> OccursAt(s[1..], sep, j))
  {
    forall j: int | 0 <= j ensures OccursAt(s, sep, j + 1) <==> OccursAt(s[1..], sep, j) {
      if j + 1 + |sep| <= |s| {
        var a, b := s[j + 1..j + 1 + |sep|], s[1..][j..j + |sep|];
        assert |a| == |b|;
        forall k | 0 <= k < |a| ensures a[k] == b[k] {
          assert a[k] == s[j + 1 + k];
          assert b[k] == s[1..][j + k] == s[j + 1 + k];
        }
        assert a == b;
      }
    }
  }

  /** `s.indexOf(sep)`: the first position at which `sep` occurs, with `None` for -1. */
  function IndexOf(s: string, sep: string): (r: Option<nat>)
    ensures r.Some? ==> OccursAt(s, sep, r.value)
    ensures r.Some? ==> forall j :: 0 <= j < r.value ==> !OccursAt(s, sep, j)
    ensures r.None? ==> forall j :: !OccursAt(s, sep, j)
    decreases |s|
  {
    if |s| < |sep| then None
    else if s[..|sep|] == sep then Some(0)
    else
      OccursAtTail(s, sep);
      assert s[0..|sep|] == s[..|sep|];
      assert !OccursAt(s, sep, 0);
      assert forall j :: 1 <= j ==> (OccursAt(s, sep, j) <==> OccursAt(s[1..], sep, j - 1));
      match IndexOf(s[1..], sep)
      case None => None
      case Some(i) => Some(i + 1)
  }

  /** An occurrence is the first one exactly when IndexOf finds it. */
  lemma IndexOfFirst(s: string, sep: string, i: nat)
    requires OccursAt(s, sep, i)
    requires forall j :: 0 <= j < i ==> !OccursAt(s, sep, j)
    ensures IndexOf(s, sep) == Some(i)
  {
  }

  /** Two texts with the same first `n` characters agree on every slice inside them. */
  lemma SliceOfCommonPrefix(s: string, t: string, n: nat, a: nat, b: nat)
    requires n <= |s| && n <= |t| && s[..n] == t[..n] && a <= b <= n
    ensures s[a..b] == t[a..b]
  {
    forall k | a <= k < b ensures s[k] == t[k] {
      assert s[k] == s[..n][k] && t[k] == t[..n][k];
    }
  }

  /** An occurrence that ends inside a common prefix is an occurrence in both texts or in neither. */
  lemma OccursInCommonPrefix(s: string, t: string, sep: string, n: nat, j: nat)
    requires n <= |s| && n <= |t| && s[..n] == t[..n] && j + |sep| <= n
    ensures OccursAt(t, sep, j) == OccursAt(s, sep, j)
  {
    SliceOfCommonPrefix(s, t, n, j, j + |sep|);
  }

  /** No occurrence in `s` before `i` means none in `t` either, when the two agree on their first `n` characters. */
  lemma NoEarlierOccurrence(s: string, t: string, sep: string, n: nat, i: nat)
    requires n <= |s| && n <= |t| && s[..n] == t[..n] && i + |sep| <= n
    requires forall j :: 0 <= j < i ==> !OccursAt(s, sep, j)
    ensures forall j :: 0 <= j < i ==> !OccursAt(t, sep, j)
  {
    forall j: nat | j < i ensures !OccursAt(t, sep, j) {
      OccursInCommonPrefix(s, t, sep, n, j);
    }
  }

  /** The first occurrence depends only on the text up to its end. */
  lemma IndexOfPrefix(s: string, t: string, sep: string, i: nat)
    requires IndexOf(s, sep) == Some(i)
    requires i + |sep| <= |t| && t[..i + |sep|] == s[..i + |sep|]
    ensures IndexOf(t, sep) == Some(i)
  {
    var n := i + |sep|;
    OccursInCommonPrefix(s, t, sep, n, i);
    NoEarlierOccurrence(s, t, sep, n, i);
    IndexOfFirst(t, sep, i);
  }

  /** Two texts that agree on their first `n` characters still agree once the first `a` are dropped. */
  lemma DropCommonPrefix(s: string, t: string, n: nat, a: nat)
    requires a <= n <= |s| && n <= |t| && s[..n] == t[..n]
    ensures s[a..][..n - a] == t[a..][..n - a]
  {
    SliceOfCommonPrefix(s, t, n, a, n);
    assert s[a..][..n - a] == s[a..n];
    assert t[a..][..n - a] == t[a..n];
  }

  /** Two texts that agree past the end of the first occurrence in one of them have it first in both, with the same text before it. */
  lemma IndexOfCommonPrefix(s: string, t: string, sep: string, i: nat, n: nat)
    requires IndexOf(s, sep) == Some(i)
    requires i + |sep| <= n <= |s| && n <= |t| && s[..n] == t[..n]
    ensures IndexOf(t, sep) == Some(i) && s[..i] == t[..i]
  {
    var m := i + |sep|;
    SliceOfCommonPrefix(s, t, n, 0, m);
    assert s[..m] == s[0..m] && t[..m] == t[0..m];
    IndexOfPrefix(s, t, sep, i);
    SliceOfCommonPrefix(s, t, n, 0, i);
    assert s[..i] == s[0..i] && t[..i] == t[0..i];
  }

  /** `s.split(sep)` for a non-empty separator: the pieces between the non-overlapping occurrences of `sep`, found from the left. */
  function Split(s: string, sep: string): (r: seq<string>)
    requires |sep| > 0
    ensures |r| >= 1
    decreases |s|
  {
    match IndexOf(s, sep)
    case None => [s]
    case Some(i) => [s[..i]] + Split(s[i + |sep|..], sep)
  }

  /** `parts.join(sep)`. */
  function Join(parts: seq<string>, sep: string): string
    decreases |parts|
  {
    if |parts| == 0 then ""
    else if |parts| == 1 then parts[0]
    else parts[0] + sep + Join(parts[1..], sep)
  }

  /** The first piece is the text before the first separator, and a second piece exists exactly when the separator occurs. */
  lemma SplitFirst(s: string, sep: string)
    requires |sep| > 0
    ensures IndexOf(s, sep).None? ==> Split(s, sep) == [s]
    ensures IndexOf(s, sep).Some? ==>
      var i := IndexOf(s, sep).value;
      Split(s, sep)[0] == s[..i] && Split(s, sep)[1..] == Split(s[i + |sep|..], sep)
  {
  }

  lemma JoinCons(a: string, rest: seq<string>, sep: string)
    requires |rest| > 0
    ensures Join([a] + rest, sep) == a + sep + Join(rest, sep)
  {
    assert ([a] + rest)[1..] == rest;
  }

  /** One step of the split: the text is the first piece, the separator and the rest. */
  lemma SplitUnfold(s: string, sep: string, i: nat)
    requires |sep| > 0 && IndexOf(s, sep) == Some(i)
    ensures Split(s, sep) == [s[..i]] + Split(s[i + |sep|..], sep)
    ensures s == s[..i] + sep + s[i + |sep|..]
  {
    assert s[i..i + |sep|] == sep;
    assert s == s[..i] + s[i..i + |sep|] + s[i + |sep|..];
  }

  /** Joining the pieces with the separator gives back the text. */
  lemma {:induction false} SplitJoin(s: string, sep: string)
    requires |sep| > 0
    ensures Join(Split(s, sep), sep) == s
    decreases |s|
  {
    var found := IndexOf(s, sep);
    if found.Some? {
      var i := found.value;
      var tail := s[i + |sep|..];
      SplitUnfold(s, sep, i);
      SplitJoin(tail, sep);
      JoinCons(s[..i], Split(tail, sep), sep);
    }
  }

  /** An occurrence inside a prefix is an occurrence in the whole text. */
  lemma OccursInPrefix(s: string, sep: string, n: nat, j: int)
    requires n <= |s| && OccursAt(s[..n], sep, j)
    ensures OccursAt(s, sep, j)
  {
    assert s[..n][j..j + |sep|] == s[j..j + |sep|];
  }

  /** No piece of a split contains the separator. */
  lemma {:induction false} SplitPiecesFree(s: string, sep: string)
    requires |sep| > 0
    ensures forall k, j :: 0 <= k < |Split(s, sep)| ==> !OccursAt(Split(s, sep)[k], sep, j)
    decreases |s|
  {
    match IndexOf(s, sep)
    case None =>
    case Some(i) =>
      var tail := s[i + |sep|..];
      SplitPiecesFree(tail, sep);
      var r := Split(s, sep);
      assert r == [s[..i]] + Split(tail, sep);
      forall k, j | 0 <= k < |r| ensures !OccursAt(r[k], sep, j) {
        if k == 0 {
          if OccursAt(s[..i], sep, j) {
            OccursInPrefix(s, sep, i, j);
          }
        } else {
          assert r[k] == Split(tail, sep)[k - 1];
        }
      }
  }

  /** Splitting on one character leaves that character in no piece. */
  lemma PiecesHaveNoChar(s: string, c: char)
    ensures forall k :: 0 <= k < |Split(s, [c])| ==> c !in Split(s, [c])[k]
  {
    var pieces := Split(s, [c]);
    SplitPiecesFree(s, [c]);
    forall k | 0 <= k < |pieces| ensures c !in pieces[k] {
      forall j | 0 <= j < |pieces[k]| ensures pieces[k][j] != c {
        assert !OccursAt(pieces[k], [c], j);
        assert pieces[k][j..j + 1] == [pieces[k][j]];
      }
    }
  }

  /** Splitting on one character gives one piece more than the character's count. */
  lemma {:induction false} SplitCharCount(s: string, c: char)
    ensures |Split(s, [c])| == multiset(s)[c] + 1
    decreases |s|
  {
    var sep := [c];
    match IndexOf(s, sep)
    case None =>
      forall j | 0 <= j < |s| ensures s[j] != c {
        assert !OccursAt(s, sep, j);
      }
      assert c !in s;
    case Some(i) =>
      var tail := s[i + 1..];
      SplitCharCount(tail, c);
      assert s[i..i + 1] == sep;
      forall j | 0 <= j < i ensures s[..i][j] != c {
        assert !OccursAt(s, sep, j);
        assert s[j..j + 1] == [s[j]];
      }
      assert c !in s[..i];
      assert s == s[..i] + [c] + tail;
      assert multiset(s) == multiset(s[..i]) + multiset{c} + multiset(tail);
  }
}
