/**
 * The extractor of src/main.rs: `is_net_char`, `just_the_net` and
 * `extract_nets`, which turn a downloaded body into the networks written on
 * its lines.  The network type of the `ipnet` crate is the type parameter `N`
 * and its `FromStr` is the parameter `parse`: a total function that either
 * gives a network or fails.
 */
module Extractor {
  import opened Wrappers
  import opened Text

  /** The characters of a CIDR literal (section 3.1 of RFC 4632 and section 2.3 of RFC 4291): hex digits, '.', ':' and '/'. */
  const NetChars: set<char> := {
    '0', '1', '2', '3', '4', '5', '6', '7', '8', '9',
    'a', 'b', 'c', 'd', 'e', 'f', 'A', 'B', 'C', 'D', 'E', 'F',
    '.', ':', '/'
  }

  /** `char::is_ascii_hexdigit`. */
  predicate IsAsciiHexDigit(c: char)
  {
    '0' <= c <= '9' || 'a' <= c <= 'f' || 'A' <= c <= 'F'
  }

  /** `is_net_char`: true of ASCII hex digits, '.', ':' and '/'. */
  predicate IsNetChar(c: char)
  {
    IsAsciiHexDigit(c) || c == '.' || c == ':' || c == '/'
  }

  /** `IsNetChar` holds of exactly the 25 characters of `NetChars`, and of no whitespace character. */
  lemma NetCharClass(c: char)
    ensures IsNetChar(c) <==> c in NetChars
    ensures IsNetChar(c) ==> !IsWhitespace(c)
  {
  }

  /** The pattern `|c| !is_net_char(c)` at which `just_the_net` cuts. */
  predicate IsNotNetChar(c: char)
  {
    !IsNetChar(c)
  }

  predicate AllNetChars(s: string)
  {
    forall i :: 0 <= i < |s| ==> IsNetChar(s[i])
  }

  /** Net characters include neither a line feed nor a carriage return, so a net is a plain line. */
  lemma NetIsPlainLine(s: string)
    requires AllNetChars(s)
    ensures IsPlainLine(s)
  {
  }

  /**
   * `just_the_net`: the longest prefix of net characters of `s` with its
   * leading whitespace trimmed.
   */
  function JustTheNet(s: string): (r: string)
    ensures |r| <= |TrimStart(s)| && r == TrimStart(s)[..|r|]
    ensures AllNetChars(r)
    ensures |r| == |TrimStart(s)| || !IsNetChar(TrimStart(s)[|r|])
  {
    var trimmed := TrimStart(s);
    match SplitOnce(trimmed, IsNotNetChar)
    case None => trimmed
    case Some((head, _)) => head
  }

  /** The three properties in the contract of `JustTheNet` single out its result: no other cut has them. */
  lemma JustTheNetUnique(s: string, p: string)
    requires |p| <= |TrimStart(s)| && p == TrimStart(s)[..|p|]
    requires AllNetChars(p)
    requires |p| == |TrimStart(s)| || !IsNetChar(TrimStart(s)[|p|])
    ensures JustTheNet(s) == p
  {
    NetPrefixUnique(TrimStart(s), JustTheNet(s), p);
  }

  /** The longest prefix of net characters of `t` is unique. */
  lemma NetPrefixUnique(t: string, p: string, q: string)
    requires |p| <= |t| && p == t[..|p|] && AllNetChars(p) && (|p| == |t| || !IsNetChar(t[|p|]))
    requires |q| <= |t| && q == t[..|q|] && AllNetChars(q) && (|q| == |t| || !IsNetChar(t[|q|]))
    ensures p == q
  {
  }

  /**
   * The cut lies exactly after the net: leading whitespace `ws`, then the net
   * characters `net`, then a `rest` that does not continue the net.
   */
  lemma JustTheNetSplit(ws: string, net: string, rest: string)
    requires forall i :: 0 <= i < |ws| ==> IsWhitespace(ws[i])
    requires AllNetChars(net)
    requires rest == [] || !IsNetChar(rest[0])
    requires net + rest == [] || !IsWhitespace((net + rest)[0])
    ensures JustTheNet(ws + net + rest) == net
  {
    var s := ws + net + rest;
    assert s[|ws|..] == net + rest;
    TrimStartUnique(s, net + rest);
    assert (net + rest)[..|net|] == net;
    JustTheNetUnique(s, net);
  }

  /** A string of net characters is its own net: `JustTheNet` is the identity on it. */
  lemma JustTheNetOfNet(s: string)
    requires AllNetChars(s)
    ensures JustTheNet(s) == s
  {
  }

  /** Cutting twice cuts nothing more. */
  lemma JustTheNetIdempotent(s: string)
    ensures JustTheNet(JustTheNet(s)) == JustTheNet(s)
  {
  }

  /**
   * A line that is blank, or whose first non-blank character cannot start a
   * network (a '#' comment, say), leaves nothing to parse.
   */
  lemma JustTheNetOfNonNetLine(l: string)
    requires TrimStart(l) == [] || !IsNetChar(TrimStart(l)[0])
    ensures JustTheNet(l) == []
  {
  }

  /** `Iterator::filter_map`: the `Some` values of `f` over `xs`, in order. */
  function FilterMap<A, B>(f: A -> Option<B>, xs: seq<A>): (r: seq<B>)
    ensures |r| <= |xs|
  {
    if xs == [] then []
    else match f(xs[0])
      case Some(y) => [y] + FilterMap(f, xs[1..])
      case None => FilterMap(f, xs[1..])
  }

  /** `FilterMap` works element by element: two blocks give the values of each, in order. */
  lemma {:induction false} FilterMapAppend<A, B>(f: A -> Option<B>, xs: seq<A>, ys: seq<A>)
    ensures FilterMap(f, xs + ys) == FilterMap(f, xs) + FilterMap(f, ys)
  {
    if xs == [] {
      assert xs + ys == ys;
    } else {
      var zs := xs + ys;
      assert zs[0] == xs[0] && zs[1..] == xs[1..] + ys;
      FilterMapAppend(f, xs[1..], ys);
      match f(xs[0])
      case None =>
      case Some(y) =>
        assert [y] + (FilterMap(f, xs[1..]) + FilterMap(f, ys))
            == ([y] + FilterMap(f, xs[1..])) + FilterMap(f, ys);
    }
  }

  /** A value is kept exactly when some element maps to it. */
  lemma {:induction false} FilterMapMembership<A, B>(f: A -> Option<B>, xs: seq<A>, y: B)
    ensures y in FilterMap(f, xs) <==> exists j :: 0 <= j < |xs| && f(xs[j]) == Some(y)
  {
    if xs != [] {
      FilterMapMembership(f, xs[1..], y);
      if exists j :: 0 <= j < |xs[1..]| && f(xs[1..][j]) == Some(y) {
        var j :| 0 <= j < |xs[1..]| && f(xs[1..][j]) == Some(y);
        assert xs[j + 1] == xs[1..][j];
      }
      if exists j :: 0 <= j < |xs| && f(xs[j]) == Some(y) {
        var j :| 0 <= j < |xs| && f(xs[j]) == Some(y);
        if j > 0 {
          assert xs[1..][j - 1] == xs[j];
        }
      }
    }
  }

  /** When every element maps to a value, `FilterMap` keeps all of them, in order. */
  lemma {:induction false} FilterMapAllSome<A, B>(f: A -> Option<B>, xs: seq<A>, ys: seq<B>)
    requires |xs| == |ys|
    requires forall i :: 0 <= i < |xs| ==> f(xs[i]) == Some(ys[i])
    ensures FilterMap(f, xs) == ys
  {
    if xs != [] {
      FilterMapAllSome(f, xs[1..], ys[1..]);
    }
  }

  /** The step `|l| just_the_net(l).parse().ok()` that `extract_nets` applies to each line. */
  function LineNet<N>(parse: string -> Option<N>): string -> Option<N>
  {
    l => parse(JustTheNet(l))
  }

  /** `extract_nets`: the networks parsed from the lines of `s`, in line order; it never fails. */
  function ExtractNets<N>(parse: string -> Option<N>, s: string): (r: seq<N>)
    ensures |r| <= |Lines(s)|
  {
    FilterMap(LineNet(parse), Lines(s))
  }

  /**
   * Extraction keeps exactly the networks of the lines that parse: a network
   * is in the result if and only if some line of `s`, cut down to its net,
   * parses to it.
   */
  lemma ExtractNetsMembership<N>(parse: string -> Option<N>, s: string, n: N)
    ensures n in ExtractNets(parse, s) <==>
      exists j :: 0 <= j < |Lines(s)| && parse(JustTheNet(Lines(s)[j])) == Some(n)
  {
    var f, ls := LineNet(parse), Lines(s);
    FilterMapMembership(f, ls, n);
    assert forall j :: 0 <= j < |ls| ==> f(ls[j]) == parse(JustTheNet(ls[j]));
  }

  /**
   * A body of complete plain lines `ss` followed by a last line `l` without a
   * line feed (empty when the body ends in one) gives the networks of those
   * lines: the last line counts whether or not a line feed ends it.
   */
  lemma ExtractNetsOfLines<N>(parse: string -> Option<N>, ss: seq<string>, l: string)
    requires forall i :: 0 <= i < |ss| ==> IsPlainLine(ss[i])
    requires '\n' !in l
    ensures ExtractNets(parse, Terminated(ss) + l) == FilterMap(LineNet(parse), if l == [] then ss else ss + [l])
  {
    if l == [] {
      assert Terminated(ss) + l == Terminated(ss);
      LinesOfTerminated(ss);
    } else {
      LinesOfTerminatedThen(ss, l);
    }
  }

  /** A body that is one network with no line feed after it gives that network. */
  lemma ExtractNetsUnterminatedNet<N>(parse: string -> Option<N>, x: string, n: N)
    requires x != [] && AllNetChars(x) && parse(x) == Some(n)
    ensures ExtractNets(parse, x) == [n]
  {
    NetIsPlainLine(x);
    LinesOfUnterminated(x);
    JustTheNetOfNet(x);
    FilterMapAllSome(LineNet(parse), [x], [n]);
  }

  /**
   * A blank line, or a line whose first non-blank character cannot start a
   * network (a '#' comment, say), parses to nothing, given that the empty
   * string does not parse.
   */
  lemma NonNetLineParsesToNothing<N>(parse: string -> Option<N>, l: string)
    requires parse([]) == None
    requires TrimStart(l) == [] || !IsNetChar(TrimStart(l)[0])
    ensures LineNet(parse)(l) == None
  {
    JustTheNetOfNonNetLine(l);
  }

  /** Such a line contributes nothing wherever it stands. */
  lemma {:induction false} NonNetLineContributesNothing<N>(parse: string -> Option<N>,
                                                           before: seq<string>, l: string, after: seq<string>)
    requires parse([]) == None
    requires TrimStart(l) == [] || !IsNetChar(TrimStart(l)[0])
    ensures FilterMap(LineNet(parse), before + [l] + after) == FilterMap(LineNet(parse), before + after)
  {
    var f := LineNet(parse);
    NonNetLineParsesToNothing(parse, l);
    assert FilterMap(f, [l]) == [] by {
      assert [l][1..] == [];
    }
    FilterMapAppend(f, before + [l], after);
    FilterMapAppend(f, before, [l]);
    FilterMapAppend(f, before, after);
  }
}
