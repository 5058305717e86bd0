/**
 * The few operations of Rust's `str` and `char` that the extractor and the
 * serialiser of src/main.rs are built from: `char::is_whitespace`,
 * `str::trim_start`, `str::split_once` with a character predicate,
 * `str::lines` and `[String]::join`.  A Rust `&str` is a `string` here, that
 * is a sequence of Unicode scalar values.
 */
module Text {
  import opened Wrappers

  /** `char::is_whitespace`: the characters with the Unicode White_Space property. */
  predicate IsWhitespace(c: char)
  {
    ('\t' <= c <= '\r') || c == ' ' || c == '\U{85}' || c == '\U{A0}' || c == '\U{1680}'
    || ('\U{2000}' <= c <= '\U{200A}') || c == '\U{2028}' || c == '\U{2029}'
    || c == '\U{202F}' || c == '\U{205F}' || c == '\U{3000}'
  }

  /**
   * `str::trim_start`: `s` without its leading whitespace.  The result is the
   * suffix of `s` that starts at the first non-whitespace character.
   */
  function TrimStart(s: string): (r: string)
    ensures |r| <= |s| && r == s[|s| - |r|..]
    ensures forall i :: 0 <= i < |s| - |r| ==> IsWhitespace(s[i])
    ensures r == [] || !IsWhitespace(r[0])
    decreases |s|
  {
    if s != [] && IsWhitespace(s[0]) then TrimStart(s[1..]) else s
  }

  /** The three properties of `TrimStart` single out its result. */
  lemma TrimStartUnique(s: string, t: string)
    requires |t| <= |s| && t == s[|s| - |t|..]
    requires forall i :: 0 <= i < |s| - |t| ==> IsWhitespace(s[i])
    requires t == [] || !IsWhitespace(t[0])
    ensures TrimStart(s) == t
  {
  }

  /**
   * `str::split_once` with a character-predicate pattern: splits `s` around
   * the first character matching `pat`, which belongs to neither half;
   * `None` when no character matches.
   */
  function SplitOnce(s: string, pat: char -> bool): (r: Option<(string, string)>)
    ensures r.None? ==> forall i :: 0 <= i < |s| ==> !pat(s[i])
    ensures r.Some? ==>
      |r.value.0| < |s| && pat(s[|r.value.0|])
      && r.value.0 == s[..|r.value.0|] && r.value.1 == s[|r.value.0| + 1..]
      && forall i :: 0 <= i < |r.value.0| ==> !pat(r.value.0[i])
    decreases |s|
  {
    if s == [] then None
    else if pat(s[0]) then Some(([], s[1..]))
    else match SplitOnce(s[1..], pat)
      case None => None
      case Some((head, tail)) => Some(([s[0]] + head, tail))
  }

  /** Splitting at a known first match gives the two sides of that match. */
  lemma {:induction false} SplitOnceAt(s: string, pat: char -> bool, head: string, tail: string)
    requires |head| < |s| && s == head + [s[|head|]] + tail && pat(s[|head|])
    requires forall i :: 0 <= i < |head| ==> !pat(head[i])
    ensures SplitOnce(s, pat) == Some((head, tail))
  {
    if head == [] {
      assert s[1..] == tail;
    } else {
      assert s[1..] == head[1..] + [s[|head|]] + tail;
      SplitOnceAt(s[1..], pat, head[1..], tail);
      assert [s[0]] + head[1..] == head;
    }
  }

  /** The pattern at which `str::lines` splits. */
  predicate IsLineFeed(c: char)
  {
    c == '\n'
  }

  /** Removes one trailing carriage return, as `str::lines` does after a line feed. */
  function StripCR(l: string): (r: string)
    ensures |l| - 1 <= |r| <= |l| && r == l[..|r|]
    ensures |r| < |l| <==> l != [] && l[|l| - 1] == '\r'
  {
    if l != [] && l[|l| - 1] == '\r' then l[..|l| - 1] else l
  }

  /**
   * `str::lines`: the pieces of `s` between line feeds.  A piece ended by a
   * line feed also loses one trailing carriage return; a final line feed
   * does not start an empty last line, and the empty string has no lines.
   */
  function Lines(s: string): (ls: seq<string>)
    ensures forall i :: 0 <= i < |ls| ==> '\n' !in ls[i]
    ensures s == [] <==> ls == []
    decreases |s|
  {
    if s == [] then []
    else match SplitOnce(s, IsLineFeed)
      case None => [s]
      case Some((line, rest)) =>
        assert line == s[..|line|];
        [StripCR(line)] + Lines(rest)
  }

  /** `[String]::join`: the strings of `ss` with `sep` between each two neighbours. */
  function Join(ss: seq<string>, sep: string): string
  {
    if |ss| == 0 then []
    else if |ss| == 1 then ss[0]
    else ss[0] + sep + Join(ss[1..], sep)
  }

  /** Every string of `ss` followed by its own line feed: a text of `|ss|` complete lines. */
  function Terminated(ss: seq<string>): string
  {
    if ss == [] then [] else ss[0] + "\n" + Terminated(ss[1..])
  }

  /** A line that `Lines` gives back unchanged: no line feed inside, no carriage return at its end. */
  predicate IsPlainLine(l: string)
  {
    '\n' !in l && (l == [] || l[|l| - 1] != '\r')
  }

  /** Joining with line feeds and adding one more is terminating every string. */
  lemma {:induction false} JoinThenNewline(ss: seq<string>)
    requires ss != []
    ensures Join(ss, "\n") + "\n" == Terminated(ss)
  {
    if |ss| > 1 {
      JoinThenNewline(ss[1..]);
      assert Join(ss, "\n") + "\n" == ss[0] + "\n" + (Join(ss[1..], "\n") + "\n");
    }
  }

  /** A non-empty text without a line feed is one line, kept whole: no carriage return is stripped from it. */
  lemma LinesOfUnterminated(l: string)
    requires l != [] && '\n' !in l
    ensures Lines(l) == [l]
  {
  }

  /**
   * The first line of a text ends at its first line feed and loses one
   * carriage return before it; the rest of the text gives the other lines.
   * With `LinesOfUnterminated` and `Lines([]) == []` this determines `Lines`
   * on every text.
   */
  lemma {:induction false} LinesCons(l: string, rest: string)
    requires '\n' !in l
    ensures Lines(l + "\n" + rest) == [StripCR(l)] + Lines(rest)
  {
    var s := l + "\n" + rest;
    forall i | 0 <= i < |l| ensures !IsLineFeed(l[i]) {
      assert l[i] in l;
    }
    SplitOnceAt(s, IsLineFeed, l, rest);
  }

  /** `Lines` splits a text of complete plain lines back into those lines. */
  lemma {:induction false} LinesOfTerminated(ss: seq<string>)
    requires forall i :: 0 <= i < |ss| ==> IsPlainLine(ss[i])
    ensures Lines(Terminated(ss)) == ss
  {
    if ss != [] {
      assert IsPlainLine(ss[0]);
      LinesCons(ss[0], Terminated(ss[1..]));
      LinesOfTerminated(ss[1..]);
    }
  }

  /** A plain first line is given back as it is, ahead of the lines of the rest. */
  lemma LinesConsPlain(x: string, rest: string, tail: seq<string>)
    requires IsPlainLine(x) && Lines(rest) == tail
    ensures Lines(x + "\n" + rest) == [x] + tail
  {
    LinesCons(x, rest);
  }

  /** Appending to a non-empty sequence keeps its first element in front. */
  lemma ConsThenAppend<T>(xs: seq<T>, y: T)
    requires xs != []
    ensures xs + [y] == [xs[0]] + (xs[1..] + [y])
  {
  }

  /** Complete plain lines followed by a last line without a line feed: that last line is one more line. */
  lemma {:induction false} LinesOfTerminatedThen(ss: seq<string>, l: string)
    requires forall i :: 0 <= i < |ss| ==> IsPlainLine(ss[i])
    requires l != [] && '\n' !in l
    ensures Lines(Terminated(ss) + l) == ss + [l]
  {
    if ss == [] {
      assert Terminated(ss) + l == l;
      LinesOfUnterminated(l);
    } else {
      var rest := Terminated(ss[1..]);
      assert Terminated(ss) + l == ss[0] + "\n" + (rest + l);
      LinesOfTerminatedThen(ss[1..], l);
      LinesConsPlain(ss[0], rest + l, ss[1..] + [l]);
      ConsThenAppend(ss, l);
    }
  }

  /** Every string of `ss` followed by a carriage return and a line feed: a text of `|ss|` CRLF-ended lines. */
  function CrlfTerminated(ss: seq<string>): string
  {
    if ss == [] then [] else ss[0] + "\r\n" + CrlfTerminated(ss[1..])
  }

  /** `Lines` strips the carriage return of each CRLF ending and gives back the lines, whatever they end in. */
  lemma {:induction false} LinesOfCrlfTerminated(ss: seq<string>)
    requires forall i :: 0 <= i < |ss| ==> '\n' !in ss[i]
    ensures Lines(CrlfTerminated(ss)) == ss
  {
    if ss != [] {
      var l := ss[0] + "\r";
      assert '\n' !in l by {
        assert '\n' !in ss[0];
      }
      assert CrlfTerminated(ss) == l + "\n" + CrlfTerminated(ss[1..]);
      LinesCons(l, CrlfTerminated(ss[1..]));
      assert StripCR(l) == ss[0];
      LinesOfCrlfTerminated(ss[1..]);
    }
  }
}
