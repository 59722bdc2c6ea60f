/**
 * The `std::string` operations both `SplitString` variants are built from
 * (`find`, `substr`, `erase`) and the decomposition their shared loop
 * computes: the pieces before each leftmost separator occurrence (Tokens)
 * and what is left after the last one (Remainder).
 */
module StringSearch {
  import opened Wrappers

  /** `sep` occurs in `s` at index `i`. */
  predicate OccursAt(s: string, sep: string, i: int) {
    0 <= i && i + |sep| <= |s| && s[i..i + |sep|] == sep
  }

  predicate Contains(s: string, sep: string) {
    exists i | 0 <= i <= |s| :: OccursAt(s, sep, i)
  }

  lemma ShiftOccurrences(s: string, sep: string)
    requires |s| > 0
    ensures forall j :: 1 <= j ==> (OccursAt(s, sep, j) <==> OccursAt(s[1..], sep, j - 1))
    ensures forall j :: 0 <= j ==> (OccursAt(s[1..], sep, j) <==> OccursAt(s, sep, j + 1))
  {
    forall j | 0 <= j
      ensures OccursAt(s[1..], sep, j) <==> OccursAt(s, sep, j + 1)
    {
      if j + 1 + |sep| <= |s| {
        assert s[1..][j..j + |sep|] == s[j + 1..j + 1 + |sep|];
      }
    }
  }

  /** The leftmost occurrence of `sep` in `s` at or after index `from`. */
  function FindFrom(s: string, sep: string, from: nat): (r: Option<nat>)
    ensures r.Some? ==> from <= r.value && r.value + |sep| <= |s|
    decreases |s| - from
  {
    if |s| < from + |sep| then None
    else if s[from..from + |sep|] == sep then Some(from)
    else FindFrom(s, sep, from + 1)
  }

  /** `std::string::find`: the leftmost occurrence of `sep` in `s`; None is `npos`. */
  function Find(s: string, sep: string): (r: Option<nat>)
    ensures r.Some? ==> r.value + |sep| <= |s|
  {
    FindFrom(s, sep, 0)
  }

  lemma {:induction false} FindFromIsLeftmost(s: string, sep: string, from: nat)
    ensures FindFrom(s, sep, from).Some? ==> OccursAt(s, sep, FindFrom(s, sep, from).value)
    ensures FindFrom(s, sep, from).Some? ==> forall j :: from <= j < FindFrom(s, sep, from).value ==> !OccursAt(s, sep, j)
    ensures FindFrom(s, sep, from).None? ==> forall j :: from <= j ==> !OccursAt(s, sep, j)
    decreases |s| - from
  {
    if from + |sep| <= |s| && s[from..from + |sep|] != sep {
      FindFromIsLeftmost(s, sep, from + 1);
    }
  }

  /** `Find` reports an occurrence, and no occurrence lies before it; `npos` means there is none. */
  lemma FindIsLeftmost(s: string, sep: string)
    ensures Find(s, sep).Some? ==> OccursAt(s, sep, Find(s, sep).value)
    ensures Find(s, sep).Some? ==> forall j :: 0 <= j < Find(s, sep).value ==> !OccursAt(s, sep, j)
    ensures Find(s, sep).None? ==> !Contains(s, sep)
  {
    FindFromIsLeftmost(s, sep, 0);
  }

  /** `std::string::substr(pos, len)`: at most `len` characters starting at `pos`. */
  function Substr(s: string, pos: nat, len: nat): string
    requires pos <= |s|
  {
    if len < |s| - pos then s[pos..pos + len] else s[pos..]
  }

  /** `std::string::erase(pos, len)`: removes at most `len` characters starting at `pos`. */
  function Erase(s: string, pos: nat, len: nat): string
    requires pos <= |s|
  {
    if len < |s| - pos then s[..pos] + s[pos + len..] else s[..pos]
  }

  /** The definitions of `Tokens` and `Remainder` at a string that contains the separator. */
  lemma FirstPiece(s: string, sep: string)
    requires |sep| > 0 && Find(s, sep).Some?
    ensures Tokens(s, sep) == [s[..Find(s, sep).value]] + Tokens(s[Find(s, sep).value + |sep|..], sep)
    ensures Remainder(s, sep) == Remainder(s[Find(s, sep).value + |sep|..], sep)
  {
  }

  /** Taken from the front, `substr` is a prefix. */
  lemma SubstrFront(s: string, len: nat)
    requires len <= |s|
    ensures Substr(s, 0, len) == s[..len]
  {
  }

  /** Erased from the front, `erase` leaves a suffix. */
  lemma EraseFront(s: string, len: nat)
    requires len <= |s|
    ensures Erase(s, 0, len) == s[len..]
  {
    if len == |s| {
      assert s[..0] == [] == s[len..];
    } else {
      assert s[..0] + s[len..] == s[len..];
    }
  }

  /**
   * With an empty separator `find` reports index 0 and `erase(0, 0 + 0)`
   * removes nothing, so a loop that runs while `find` succeeds never ends:
   * this is why both split variants need a non-empty separator.
   */
  lemma EmptySeparatorMakesNoProgress(s: string)
    ensures Find(s, "") == Some(0)
    ensures Erase(s, 0, Find(s, "").value + |""|) == s
  {
  }

  /** The pieces in front of each leftmost, non-overlapping occurrence of `sep`, in order. */
  function Tokens(s: string, sep: string): seq<string>
    requires |sep| > 0
    decreases |s|
  {
    match Find(s, sep)
    case None => []
    case Some(k) => [s[..k]] + Tokens(s[k + |sep|..], sep)
  }

  /** What is left of `s` after the last occurrence of `sep` (all of `s` when there is none). */
  function Remainder(s: string, sep: string): string
    requires |sep| > 0
    decreases |s|
  {
    match Find(s, sep)
    case None => s
    case Some(k) => Remainder(s[k + |sep|..], sep)
  }

  /**
   * Number of leftmost non-overlapping occurrences of `sep`, counted by
   * scanning one character at a time (independent of `Find`).
   */
  function CountOccurrences(s: string, sep: string): nat
    requires |sep| > 0
    decreases |s|
  {
    if |s| < |sep| then 0
    else if s[..|sep|] == sep then 1 + CountOccurrences(s[|sep|..], sep)
    else CountOccurrences(s[1..], sep)
  }

  /**
   * One turn of the split loop: `substr(0, find)` is the first piece and
   * `erase(0, find + |sep|)` leaves the text whose pieces and remainder are
   * the rest.
   */
  lemma CutFirstPiece(s: string, sep: string)
    requires |sep| > 0 && Find(s, sep).Some?
    ensures Tokens(s, sep) == [Substr(s, 0, Find(s, sep).value)] + Tokens(Erase(s, 0, Find(s, sep).value + |sep|), sep)
    ensures Remainder(s, sep) == Remainder(Erase(s, 0, Find(s, sep).value + |sep|), sep)
    ensures |Erase(s, 0, Find(s, sep).value + |sep|)| < |s|
  {
    var k := Find(s, sep).value;
    SubstrFront(s, k);
    EraseFront(s, k + |sep|);
    FirstPiece(s, sep);
  }

  /**
   * One turn of the split loop, as both `SplitString` variants run it: the
   * first piece moves from the pending tokens to the collected ones, the
   * remainder is unchanged, and the text left to scan gets shorter.
   */
  lemma SplitStep(source: string, sep: string, done: seq<string>, rest: string, piece: string, next: string)
    requires |sep| > 0 && Find(rest, sep).Some?
    requires piece == Substr(rest, 0, Find(rest, sep).value)
    requires next == Erase(rest, 0, Find(rest, sep).value + |sep|)
    requires Tokens(source, sep) == done + Tokens(rest, sep)
    requires Remainder(source, sep) == Remainder(rest, sep)
    ensures Tokens(source, sep) == (done + [piece]) + Tokens(next, sep)
    ensures Remainder(source, sep) == Remainder(next, sep)
    ensures |next| < |rest|
  {
    CutFirstPiece(rest, sep);
    ConcatAssociates(done, [piece], Tokens(next, sep));
  }

  /**
   * Concatenation regroups. Stated over any element type so that the
   * solver does not unfold equality of the strings inside.
   */
  lemma ConcatAssociates<T>(a: seq<T>, b: seq<T>, c: seq<T>)
    ensures a + (b + c) == (a + b) + c
  {
  }

  /** Each piece followed by the separator, concatenated. */
  function Terminated(pieces: seq<string>, sep: string): string
    decreases |pieces|
  {
    if pieces == [] then "" else pieces[0] + sep + Terminated(pieces[1..], sep)
  }

  /** The pieces, each with its separator put back, followed by the remainder, are the source. */
  lemma {:induction false} TokensReassemble(s: string, sep: string)
    requires |sep| > 0
    ensures Terminated(Tokens(s, sep), sep) + Remainder(s, sep) == s
    decreases |s|
  {
    var f := Find(s, sep);
    FindIsLeftmost(s, sep);
    if f.Some? {
      var k := f.value;
      var rest := s[k + |sep|..];
      assert s == s[..k] + sep + rest by {
        assert s[k..k + |sep|] == sep;
      }
      TokensReassemble(rest, sep);
      var t, r := Terminated(Tokens(rest, sep), sep), Remainder(rest, sep);
      assert Tokens(s, sep) == [s[..k]] + Tokens(rest, sep);
      assert Remainder(s, sep) == r;
      var ts := Tokens(s, sep);
      assert ts[0] == s[..k] && ts[1..] == Tokens(rest, sep);
      assert Terminated(ts, sep) == ts[0] + sep + Terminated(ts[1..], sep);
      assert Terminated(ts, sep) == s[..k] + sep + t;
      assert t + r == rest;
      calc {
        Terminated(ts, sep) + Remainder(s, sep);
        (s[..k] + sep + t) + r;
        { assert (s[..k] + sep + t) + r == (s[..k] + sep) + (t + r); }
        (s[..k] + sep) + rest;
      }
    }
  }

  lemma PrefixOccurrence(s: string, sep: string, k: nat, j: int)
    requires k <= |s|
    requires OccursAt(s[..k], sep, j)
    ensures OccursAt(s, sep, j)
  {
    assert s[..k][j..j + |sep|] == s[j..j + |sep|];
  }

  /** The text before the leftmost occurrence holds no occurrence. */
  lemma FirstPieceClear(s: string, sep: string)
    requires |sep| > 0 && Find(s, sep).Some?
    ensures !Contains(s[..Find(s, sep).value], sep)
  {
    FindIsLeftmost(s, sep);
    var k := Find(s, sep).value;
    if Contains(s[..k], sep) {
      var j :| 0 <= j <= k && OccursAt(s[..k], sep, j);
      PrefixOccurrence(s, sep, k, j);
      assert false;
    }
  }

  /** No piece contains the separator. */
  lemma {:induction false} TokensAvoidSeparator(s: string, sep: string)
    requires |sep| > 0
    ensures forall i :: 0 <= i < |Tokens(s, sep)| ==> !Contains(Tokens(s, sep)[i], sep)
    decreases |s|
  {
    if Find(s, sep).Some? {
      var k := Find(s, sep).value;
      var rest := s[k + |sep|..];
      TokensAvoidSeparator(rest, sep);
      FirstPieceClear(s, sep);
      FirstPiece(s, sep);
      var ts, more := Tokens(s, sep), Tokens(rest, sep);
      forall i | 0 <= i < |ts|
        ensures !Contains(ts[i], sep)
      {
        if 0 < i {
          assert ts[i] == more[i - 1];
        }
      }
    }
  }

  /** The remainder does not contain the separator either. */
  lemma {:induction false} RemainderAvoidsSeparator(s: string, sep: string)
    requires |sep| > 0
    ensures !Contains(Remainder(s, sep), sep)
    decreases |s|
  {
    FindIsLeftmost(s, sep);
    match Find(s, sep)
    case None =>
    case Some(k) => RemainderAvoidsSeparator(s[k + |sep|..], sep);
  }

  /** Skipping a prefix free of occurrences does not change the count. */
  lemma {:induction false} CountSkipsClearPrefix(s: string, sep: string, k: nat)
    requires |sep| > 0 && k <= |s|
    requires forall j :: 0 <= j < k ==> !OccursAt(s, sep, j)
    ensures CountOccurrences(s, sep) == CountOccurrences(s[k..], sep)
    decreases k
  {
    if k > 0 {
      assert !OccursAt(s, sep, 0);
      if |s| >= |sep| {
        assert s[..|sep|] != sep;
      }
      ShiftOccurrences(s, sep);
      CountSkipsClearPrefix(s[1..], sep, k - 1);
      assert s[1..][k - 1..] == s[k..];
    }
  }

  /** A string with no occurrence counts none. */
  lemma {:induction false} CountWithoutOccurrence(s: string, sep: string)
    requires |sep| > 0 && !Contains(s, sep)
    ensures CountOccurrences(s, sep) == 0
  {
    CountSkipsClearPrefix(s, sep, |s|);
    assert s[|s|..] == [];
  }

  /** An occurrence at the front counts one, and counting resumes after it. */
  lemma CountAtOccurrence(t: string, sep: string)
    requires |sep| > 0 && |sep| <= |t| && t[..|sep|] == sep
    ensures CountOccurrences(t, sep) == 1 + CountOccurrences(t[|sep|..], sep)
  {
  }

  /** There is one piece per leftmost non-overlapping occurrence of the separator. */
  lemma {:induction false} TokensCount(s: string, sep: string)
    requires |sep| > 0
    ensures |Tokens(s, sep)| == CountOccurrences(s, sep)
    decreases |s|
  {
    FindIsLeftmost(s, sep);
    if Find(s, sep).None? {
      CountWithoutOccurrence(s, sep);
    } else {
      var k := Find(s, sep).value;
      var rest, t := s[k + |sep|..], s[k..];
      FirstPiece(s, sep);
      TokensCount(rest, sep);
      CountSkipsClearPrefix(s, sep, k);
      assert t[..|sep|] == sep;
      assert t[|sep|..] == rest;
      CountAtOccurrence(t, sep);
    }
  }

  /** A separator at the front yields an empty first piece, which is kept. */
  lemma LeadingSeparator(s: string, sep: string)
    requires |sep| > 0
    ensures Tokens(sep + s, sep) == [""] + Tokens(s, sep)
    ensures Remainder(sep + s, sep) == Remainder(s, sep)
  {
    assert (sep + s)[..|sep|] == sep;
    assert Find(sep + s, sep) == Some(0);
    assert (sep + s)[0 + |sep|..] == s;
  }
}
