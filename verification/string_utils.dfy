/**
 * src/StringUtils.cpp and src/StringUtils.hpp: the older `SplitString`,
 * which never emits the text after the last separator, and the older argv
 * builder `JoinStrings`, which ignores its separator and terminator.
 */
module StringUtils {
  import opened Wrappers
  import opened StringSearch
  import Utils

  /** Same loop as `Utils::SplitString`, without the final push of the remainder. */
  method SplitString(source: string, separator: string) returns (out: seq<string>)
    requires |separator| > 0
    ensures out == Tokens(source, separator)
  {
    out := [];
    var lastSeparatorPos := 0;
    var rest := source;
    while Find(rest, separator).Some?
      invariant Tokens(source, separator) == out + Tokens(rest, separator)
      invariant Remainder(source, separator) == Remainder(rest, separator)
      decreases |rest|
    {
      var pos := Find(rest, separator).value;
      var piece := Substr(rest, lastSeparatorPos, pos);
      var next := Erase(rest, 0, pos + |separator|);
      SplitStep(source, separator, out, rest, piece, next);
      out := out + [piece];
      rest := next;
    }
  }

  /**
   * The pieces, each followed by the separator, form a prefix of the source;
   * what follows that prefix is the remainder, which holds no separator and is
   * never emitted. A source without separator therefore gives no piece at all.
   */
  lemma PiecesFormPrefix(s: string, sep: string)
    requires |sep| > 0
    ensures Terminated(Tokens(s, sep), sep) <= s
    ensures s[|Terminated(Tokens(s, sep), sep)|..] == Remainder(s, sep)
    ensures !Contains(Remainder(s, sep), sep)
    ensures !Contains(s, sep) ==> Tokens(s, sep) == []
  {
    TokensReassemble(s, sep);
    RemainderAvoidsSeparator(s, sep);
    FindIsLeftmost(s, sep);
  }

  /**
   * Builds `name, source..., NULL` exactly like `Utils::ContainerToConstChar`;
   * `separator` and `terminator` are accepted and ignored.
   */
  method JoinStrings(name: string, source: seq<string>, separator: string := "", terminator: string := "")
    returns (out: seq<Option<string>>)
    ensures out == Utils.Argv(name, source)
  {
    out := [Some(name)];
    var i := 0;
    while i < |source|
      invariant 0 <= i <= |source|
      invariant |out| == i + 1 && out[0] == Some(name)
      invariant forall j :: 0 <= j < i ==> out[j + 1] == Some(source[j])
    {
      out := out + [Some(source[i])];
      i := i + 1;
    }
    out := out + [None];
  }
}
