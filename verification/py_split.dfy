/** Python's `str.split(sep)` for a literal separator, and the two ways the
    extractors index its result: `[0]` (text before the first occurrence) and
    `[1]` (text between the first and the second occurrence, or to the end;
    `IndexError` when the separator is absent). */
module PySplit {
  import opened Wrappers

  /** `sep` occurs in `s` starting at index `i`. */
  ghost predicate Occurs(s: string, sep: string, i: int) {
    0 <= i && i + |sep| <= |s| && s[i..i + |sep|] == sep
  }

  ghost predicate Contains(s: string, sep: string) {
    exists i :: Occurs(s, sep, i)
  }

  /** No occurrence of `sep` in `s` starts before index `k`. */
  ghost predicate NoneBefore(s: string, sep: string, k: int) {
    forall j :: 0 <= j < k ==> !Occurs(s, sep, j)
  }

  /** `i` is the leftmost index at which `sep` occurs in `s`. */
  ghost predicate FirstAt(s: string, sep: string, i: int) {
    Occurs(s, sep, i) && NoneBefore(s, sep, i)
  }

  /** An occurrence in the suffix `s[k..]` is an occurrence in `s`, `k` places
      later. */
  lemma OccursInSuffix(s: string, sep: string, k: nat, j: nat)
    requires k <= |s|
    ensures Occurs(s[k..], sep, j) <==> Occurs(s, sep, k + j)
  {
    if j + |sep| <= |s| - k {
      assert s[k..][j..j + |sep|] == s[k + j..k + j + |sep|];
    }
  }

  /** Index of the leftmost occurrence of `sep` in `s`, as `str.find` computes it
      (`None` for Python's -1). */
  function IndexOf(s: string, sep: string): (r: Option<nat>)
    ensures r.Some? ==> FirstAt(s, sep, r.value)
    ensures r.None? ==> !Contains(s, sep)
    decreases |s|
  {
    if |s| < |sep| then None
    else if s[..|sep|] == sep then Some(0)
    else
      var r := IndexOf(s[1..], sep);
      assert forall j: nat :: Occurs(s[1..], sep, j) <==> Occurs(s, sep, j + 1) by {
        forall j: nat ensures Occurs(s[1..], sep, j) <==> Occurs(s, sep, j + 1) {
          OccursInSuffix(s, sep, 1, j);
        }
      }
      assert !Occurs(s, sep, 0);
      match r
      case None =>
        assert forall i :: !Occurs(s, sep, i) by {
          forall i ensures !Occurs(s, sep, i) {
            if i > 0 { assert !Occurs(s[1..], sep, i - 1); }
          }
        }
        None
      case Some(i) =>
        assert forall j :: 0 <= j < i + 1 ==> !Occurs(s, sep, j) by {
          forall j | 0 <= j < i + 1 ensures !Occurs(s, sep, j) {
            if j > 0 { assert !Occurs(s[1..], sep, j - 1); }
          }
        }
        Some(i + 1)
  }

  /** The leftmost occurrence is unique: any index that is an occurrence with
      none before it is the one `IndexOf` finds. */
  lemma FirstAtIsIndexOf(s: string, sep: string, i: int)
    requires FirstAt(s, sep, i)
    ensures IndexOf(s, sep) == Some(i)
  {
    var r := IndexOf(s, sep);
    assert r.Some?;
  }

  /** `s.split(sep)[0]`: the text before the first occurrence of `sep`, or all
      of `s` when `sep` does not occur. */
  function SplitFirst(s: string, sep: string): (r: string)
    requires |sep| > 0
    ensures r <= s
    ensures NoneBefore(s, sep, |r|)
    ensures |r| == |s| || Occurs(s, sep, |r|)
  {
    match IndexOf(s, sep)
    case None => s
    case Some(i) => s[..i]
  }

  /** `piece` is the text of `s` from `start` up to the next occurrence of
      `sep` at or after `start`, or up to the end of `s` when there is none. */
  ghost predicate PieceAt(s: string, sep: string, start: int, piece: string) {
    && 0 <= start
    && start + |piece| <= |s|
    && s[start..start + |piece|] == piece
    && (forall j :: start <= j < start + |piece| ==> !Occurs(s, sep, j))
    && (start + |piece| == |s| || Occurs(s, sep, start + |piece|))
  }

  /** `s.split(sep)[1]`: `None` (IndexError) exactly when `sep` does not occur;
      otherwise the text that starts just after the first occurrence and runs
      to the next occurrence or to the end of `s`. */
  function SplitSecond(s: string, sep: string): (r: Option<string>)
    requires |sep| > 0
    ensures r.Some? <==> Contains(s, sep)
  {
    match IndexOf(s, sep)
    case None => None
    case Some(i) => Some(SplitFirst(s[i + |sep|..], sep))
  }

  /** Where `s.split(sep)[1]` sits in `s`: it starts right after the first
      occurrence of `sep` and runs to the next occurrence or to the end. */
  lemma SplitSecondPiece(s: string, sep: string)
    requires |sep| > 0 && Contains(s, sep)
    ensures SplitSecond(s, sep).Some?
    ensures PieceAt(s, sep, IndexOf(s, sep).value + |sep|, SplitSecond(s, sep).value)
  {
    SplitFirstOfSuffix(s, sep, IndexOf(s, sep).value + |sep|);
  }

  /** `SplitFirst` of a suffix, restated as positions in the whole string. */
  lemma SplitFirstOfSuffix(s: string, sep: string, start: nat)
    requires |sep| > 0 && start <= |s|
    ensures PieceAt(s, sep, start, SplitFirst(s[start..], sep))
  {
    var rest := s[start..];
    var r := SplitFirst(rest, sep);
    assert s[start..start + |r|] == r by {
      assert r == rest[..|r|];
    }
    forall j | start <= j < start + |r| ensures !Occurs(s, sep, j) {
      OccursInSuffix(s, sep, start, j - start);
    }
    OccursInSuffix(s, sep, start, |r|);
  }

  /** A prefix of `s` that ends at the first occurrence of `sep` (or at the end
      of `s` when there is none) is `s.split(sep)[0]`. */
  lemma SplitFirstUnique(s: string, sep: string, k: int)
    requires |sep| > 0 && 0 <= k <= |s|
    requires NoneBefore(s, sep, k)
    requires k == |s| || Occurs(s, sep, k)
    ensures SplitFirst(s, sep) == s[..k]
  {
    var r := SplitFirst(s, sep);
    assert r == s[..|r|];
  }

  /** When `a + sep` has its first `sep` at the very end, the first `sep` of
      `a + sep + rest` is that one, whatever `rest` holds. */
  lemma FirstAtPrefix(a: string, sep: string, rest: string)
    requires FirstAt(a + sep, sep, |a|)
    ensures IndexOf(a + sep + rest, sep) == Some(|a|)
  {
    var x := a + sep + rest;
    assert x[..|a| + |sep|] == a + sep;
    assert Occurs(x, sep, |a|) by {
      assert x[|a|..|a| + |sep|] == (a + sep)[|a|..|a| + |sep|];
    }
    forall j | 0 <= j < |a| ensures !Occurs(x, sep, j) {
      assert x[j..j + |sep|] == (a + sep)[j..j + |sep|];
      assert !Occurs(a + sep, sep, j);
    }
    FirstAtIsIndexOf(x, sep, |a|);
  }

  /** Under the same condition, `split(sep)[0]` of `a + sep + rest` is `a`. */
  lemma SplitFirstAtPrefix(a: string, sep: string, rest: string)
    requires |sep| > 0 && FirstAt(a + sep, sep, |a|)
    ensures SplitFirst(a + sep + rest, sep) == a
  {
    FirstAtPrefix(a, sep, rest);
    assert (a + sep + rest)[..|a|] == a;
  }

  /** Under the same condition, `split(sep)[1]` of `a + sep + rest` is
      `split(sep)[0]` of `rest`. */
  lemma SplitSecondAtPrefix(a: string, sep: string, rest: string)
    requires |sep| > 0 && FirstAt(a + sep, sep, |a|)
    ensures SplitSecond(a + sep + rest, sep) == Some(SplitFirst(rest, sep))
  {
    FirstAtPrefix(a, sep, rest);
    assert (a + sep + rest)[|a| + |sep|..] == rest;
  }

  /** `t` sits in `s` at index `k`. */
  ghost predicate SliceAt(s: string, k: int, t: string) {
    0 <= k && k + |t| <= |s| && s[k..k + |t|] == t
  }

  /** A slice of a slice is a slice, at the summed offset. */
  lemma SliceAtTrans(s: string, k: int, t: string, m: int, u: string)
    requires SliceAt(s, k, t) && SliceAt(t, m, u)
    ensures SliceAt(s, k + m, u)
  {
    forall i | 0 <= i < |u| ensures s[k + m..k + m + |u|][i] == u[i] {
      assert u[i] == t[m..m + |u|][i] == t[m + i] == s[k..k + |t|][m + i];
    }
  }

  /** An occurrence inside a slice is an occurrence in the whole string. */
  lemma OccursInSlice(s: string, k: int, t: string, sep: string, j: int)
    requires SliceAt(s, k, t) && Occurs(t, sep, j)
    ensures Occurs(s, sep, k + j)
  {
    forall i | 0 <= i < |sep| ensures s[k + j..k + j + |sep|][i] == sep[i] {
      assert sep[i] == t[j..j + |sep|][i] == t[j + i] == s[k..k + |t|][j + i];
    }
  }

  /** A one-character separator occurs exactly where that character is. */
  lemma OccursChar(s: string, c: char, j: int)
    ensures Occurs(s, [c], j) <==> 0 <= j < |s| && s[j] == c
  {
    if 0 <= j < |s| {
      assert s[j..j + 1] == [s[j]];
    }
  }

  /** The full list `s.split(sep)`: the pieces between successive
      non-overlapping occurrences, scanning left to right. */
  function Split(s: string, sep: string): (parts: seq<string>)
    requires |sep| > 0
    ensures |parts| >= 1
    decreases |s|
  {
    match IndexOf(s, sep)
    case None => [s]
    case Some(i) => [s[..i]] + Split(s[i + |sep|..], sep)
  }

  /** No piece of `s.split(sep)` contains `sep`. */
  lemma {:induction false} SplitPiecesFree(s: string, sep: string)
    requires |sep| > 0
    ensures forall k :: 0 <= k < |Split(s, sep)| ==> !Contains(Split(s, sep)[k], sep)
    decreases |s|
  {
    match IndexOf(s, sep)
    case None =>
    case Some(i) =>
      var head := s[..i];
      forall j | Occurs(head, sep, j) ensures false {
        assert head[j..j + |sep|] == s[j..j + |sep|];
        assert Occurs(s, sep, j);
      }
      SplitPiecesFree(s[i + |sep|..], sep);
  }

  /** `t` is a suffix of `s`. */
  ghost predicate EndsWith(s: string, t: string) {
    |t| <= |s| && s[|s| - |t|..] == t
  }

  /** `sep.join(parts)`: the first piece starts it, the last piece ends it,
      and a separator follows the first piece whenever there is a second. */
  function Join(parts: seq<string>, sep: string): (r: string)
    ensures |parts| == 0 ==> r == ""
    ensures |parts| > 0 ==> parts[0] <= r
    ensures |parts| > 1 ==> Occurs(r, sep, |parts[0]|)
    ensures |parts| > 0 ==> EndsWith(r, parts[|parts| - 1])
    decreases |parts|
  {
    if |parts| == 0 then ""
    else if |parts| == 1 then parts[0]
    else parts[0] + sep + Join(parts[1..], sep)
  }

  /** Joining a piece in front of a non-empty list puts one separator
      between it and the rest. */
  lemma JoinCons(head: string, tail: seq<string>, sep: string)
    requires |tail| > 0
    ensures Join([head] + tail, sep) == head + sep + Join(tail, sep)
  {
    assert ([head] + tail)[1..] == tail;
  }

  /** Splitting and re-joining with the same separator gives back the input. */
  lemma {:induction false} JoinSplit(s: string, sep: string)
    requires |sep| > 0
    ensures Join(Split(s, sep), sep) == s
    decreases |s|
  {
    var found := IndexOf(s, sep);
    if found.Some? {
      var i := found.value;
      var head, rest := s[..i], s[i + |sep|..];
      var tail := Split(rest, sep);
      assert Split(s, sep) == [head] + tail;
      assert s == head + sep + rest by {
        assert s[i..i + |sep|] == sep;
      }
      JoinSplit(rest, sep);
      JoinCons(head, tail, sep);
    }
  }

  /** Element `[0]` of the full split is `SplitFirst`, element `[1]` exists
      exactly when `SplitSecond` succeeds, and then it is `SplitSecond`'s
      value. */
  lemma {:induction false} SplitIndexing(s: string, sep: string)
    requires |sep| > 0
    ensures Split(s, sep)[0] == SplitFirst(s, sep)
    ensures |Split(s, sep)| >= 2 <==> SplitSecond(s, sep).Some?
    ensures |Split(s, sep)| >= 2 ==> Split(s, sep)[1] == SplitSecond(s, sep).value
  {
    match IndexOf(s, sep)
    case None =>
    case Some(i) =>
      var rest := s[i + |sep|..];
      SplitIndexing(rest, sep);
  }
}
