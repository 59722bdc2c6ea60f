/**
 * src/Utils.cpp and src/Utils.hpp: `SplitString` (the variant that keeps a
 * non-empty trailing remainder), `ContainerToConstChar` (the argv builder
 * handed to `execv`) and `JoinStrings`.
 */
module Utils {
  import opened Wrappers
  import opened StringSearch

  /** What `Utils::SplitString` returns: the pieces, then the remainder unless it is empty. */
  function Split(s: string, sep: string): seq<string>
    requires |sep| > 0
  {
    Tokens(s, sep) + (if |Remainder(s, sep)| != 0 then [Remainder(s, sep)] else [])
  }

  /**
   * The loop cuts off the text before the first separator (`substr` from
   * `last_separator_pos`, which stays 0) and erases it together with the
   * separator, until no separator is left.
   */
  method SplitString(source: string, separator: string) returns (out: seq<string>)
    requires |separator| > 0
    ensures out == Split(source, separator)
  {
    out := [];
    var lastSeparatorPos := 0;
    var rest := source;
    while Find(rest, separator).Some?
      invariant Tokens(source, separator) == out + Tokens(rest, separator)
      invariant Remainder(source, separator) == Remainder(rest, separator)
      decreases |rest|
    {
      var pos := Find(rest, separator).value;
      var piece := Substr(rest, lastSeparatorPos, pos);
      var next := Erase(rest, 0, pos + |separator|);
      SplitStep(source, separator, out, rest, piece, next);
      out := out + [piece];
      rest := next;
    }
    if |rest| != 0 {
      out := out + [rest];
    }
  }

  /** An empty source splits into nothing; a source without separator into itself. */
  lemma SplitEdgeCases(s: string, sep: string)
    requires |sep| > 0
    ensures s == "" ==> Split(s, sep) == []
    ensures s != "" && !Contains(s, sep) ==> Split(s, sep) == [s]
  {
    FindIsLeftmost(s, sep);
  }

  /** No piece of the result contains the separator. */
  lemma SplitAvoidsSeparator(s: string, sep: string)
    requires |sep| > 0
    ensures forall i :: 0 <= i < |Split(s, sep)| ==> !Contains(Split(s, sep)[i], sep)
  {
    TokensAvoidSeparator(s, sep);
    RemainderAvoidsSeparator(s, sep);
  }

  /** One piece per separator occurrence, plus one for a non-empty remainder. */
  lemma SplitCount(s: string, sep: string)
    requires |sep| > 0
    ensures |Split(s, sep)| == CountOccurrences(s, sep) + (if Remainder(s, sep) != "" then 1 else 0)
  {
    TokensCount(s, sep);
  }

  /** A separator at the front produces an empty piece, which is kept. */
  lemma SplitLeadingSeparator(s: string, sep: string)
    requires |sep| > 0
    ensures Split(sep + s, sep) == [""] + Split(s, sep)
  {
    LeadingSeparator(s, sep);
  }

  /** Consecutive separators produce empty pieces that are kept. */
  lemma SplitKeepsEmptyPieces(s: string, sep: string)
    requires |sep| > 0
    ensures Split(sep + sep + s, sep) == ["", ""] + Split(s, sep)
  {
    var t := sep + s;
    SplitLeadingSeparator(t, sep);
    SplitLeadingSeparator(s, sep);
    ConcatAssociates(sep, sep, s);
    ConcatAssociates([""], [""], Split(s, sep));
    assert [""] + [""] == ["", ""];
  }

  /** `out[0]` is the name, then each element of `source`, then the terminating NULL (None). */
  function Argv(name: string, source: seq<string>): (r: seq<Option<string>>)
    ensures |r| == |source| + 2
    ensures r[0] == Some(name) && r[|source| + 1] == None
    ensures forall i :: 0 <= i < |source| ==> r[i + 1] == Some(source[i])
  {
    [Some(name)] + seq(|source|, i requires 0 <= i < |source| => Some(source[i])) + [None]
  }

  method ContainerToConstChar(name: string, source: seq<string>) returns (out: seq<Option<string>>)
    ensures out == Argv(name, source)
  {
    out := [Some(name)];
    var i := 0;
    while i < |source|
      invariant 0 <= i <= |source|
      invariant |out| == i + 1 && out[0] == Some(name)
      invariant forall j :: 0 <= j < i ==> out[j + 1] == Some(source[j])
    {
      out := out + [Some(source[i])];
      i := i + 1;
    }
    out := out + [None];
  }

  /** `s0 + sep + s1 + ... + sep + s(n-1)`. */
  function Join(xs: seq<string>, sep: string): string
    requires |xs| > 0
    decreases |xs|
  {
    if |xs| == 1 then xs[0] else xs[0] + sep + Join(xs[1..], sep)
  }

  lemma {:induction false} JoinSnoc(xs: seq<string>, x: string, sep: string)
    requires |xs| > 0
    ensures Join(xs + [x], sep) == Join(xs, sep) + sep + x
    decreases |xs|
  {
    if |xs| == 1 {
      assert xs + [x] == [xs[0], x];
    } else {
      JoinSnoc(xs[1..], x, sep);
      assert (xs + [x])[1..] == xs[1..] + [x];
      calc {
        Join(xs + [x], sep);
        xs[0] + sep + Join(xs[1..] + [x], sep);
        xs[0] + sep + (Join(xs[1..], sep) + sep + x);
        { assert xs[0] + sep + (Join(xs[1..], sep) + sep + x) == (xs[0] + sep + Join(xs[1..], sep)) + sep + x; }
        Join(xs, sep) + sep + x;
      }
    }
  }

  /**
   * `Utils::JoinStrings`: appends the first element unconditionally (the
   * source dereferences `begin()`, hence the non-empty requirement; its one
   * caller in src/Process.cpp checks the size first), then separator and
   * element for each further one.
   */
  method JoinStrings(source: seq<string>, separator: string) returns (out: string)
    requires |source| > 0
    ensures out == Join(source, separator)
  {
    out := source[0];
    var i := 1;
    while i < |source|
      invariant 1 <= i <= |source|
      invariant out == Join(source[..i], separator)
    {
      JoinSnoc(source[..i], source[i], separator);
      assert source[..i + 1] == source[..i] + [source[i]];
      out := out + separator + source[i];
      i := i + 1;
    }
    assert source[..i] == source;
  }

  function TotalLength(xs: seq<string>): nat
    decreases |xs|
  {
    if xs == [] then 0 else |xs[0]| + TotalLength(xs[1..])
  }

  /** The joined text has the elements' lengths plus one separator between each pair. */
  lemma {:induction false} JoinLength(xs: seq<string>, sep: string)
    requires |xs| > 0
    ensures |Join(xs, sep)| == TotalLength(xs) + (|xs| - 1) * |sep|
    decreases |xs|
  {
    if |xs| > 1 {
      JoinLength(xs[1..], sep);
    }
  }

  /** Joining one element gives that element. */
  lemma JoinSingle(x: string, sep: string)
    ensures Join([x], sep) == x
  {
  }

  lemma {:induction false} JoinAfterTerminated(ts: seq<string>, r: string, sep: string)
    ensures Join(ts + [r], sep) == Terminated(ts, sep) + r
    decreases |ts|
  {
    if ts == [] {
      assert ts + [r] == [r];
    } else {
      JoinAfterTerminated(ts[1..], r, sep);
      assert (ts + [r])[1..] == ts[1..] + [r];
      assert ts[0] + sep + (Terminated(ts[1..], sep) + r) == (ts[0] + sep + Terminated(ts[1..], sep)) + r;
    }
  }

  lemma {:induction false} JoinThenSeparator(ts: seq<string>, sep: string)
    requires |ts| > 0
    ensures Join(ts, sep) + sep == Terminated(ts, sep)
    decreases |ts|
  {
    if |ts| > 1 {
      JoinThenSeparator(ts[1..], sep);
      assert ts[0] + sep + Join(ts[1..], sep) + sep == ts[0] + sep + (Join(ts[1..], sep) + sep);
    } else {
      assert ts[1..] == [];
    }
  }

  /**
   * Joining the pieces with the separator gives the source back, except that
   * one trailing separator is lost exactly when the remainder is empty.
   */
  lemma SplitJoinRoundTrip(s: string, sep: string)
    requires |sep| > 0
    ensures Remainder(s, sep) != "" ==> Join(Split(s, sep), sep) == s
    ensures Remainder(s, sep) == "" && s != "" ==>
      |Split(s, sep)| > 0 && Join(Split(s, sep), sep) + sep == s
  {
    TokensReassemble(s, sep);
    var ts, r := Tokens(s, sep), Remainder(s, sep);
    if r != "" {
      JoinAfterTerminated(ts, r, sep);
    } else if s != "" {
      assert Terminated(ts, sep) == s;
      assert ts != [];
      assert Split(s, sep) == ts;
      JoinThenSeparator(ts, sep);
    }
  }
}
