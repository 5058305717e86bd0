/**
 * The unit tests at the end of src/main.rs, as lemmas about the model.  The
 * tests compare against `"...".parse::<IpNet>().unwrap()`; here those are the
 * networks `a` and `b` that `parse` gives for the two literals.
 */
module Tests {
  import opened Wrappers
  import opened Text
  import opened Extractor
  import opened Serialiser

  /** The IPv4 and IPv6 documentation prefixes of RFC 5737 and RFC 3849 that the tests use. */
  const V4 := "192.0.2.0/24"
  const V6 := "2001:db8:1234:5678:90ab:cdef::/96"

  /** Both test prefixes consist of net characters only. */
  lemma TestPrefixesAreNets()
    ensures AllNetChars(V4) && AllNetChars(V6)
  {
  }

  /** `test_just_the_net`: a bare IPv4 prefix. */
  lemma JustTheNetV4Bare()
    ensures JustTheNet(V4) == V4
  {
    TestPrefixesAreNets();
    JustTheNetOfNet(V4);
  }

  /** `test_just_the_net`: an indented IPv4 prefix. */
  lemma JustTheNetV4Indented()
    ensures JustTheNet("    " + V4) == V4
  {
    TestPrefixesAreNets();
    assert "    " + V4 + "" == "    " + V4;
    JustTheNetSplit("    ", V4, "");
  }

  /** `test_just_the_net`: an indented IPv4 prefix followed by a word. */
  lemma JustTheNetV4Noted()
    ensures JustTheNet("    " + V4 + " pelican") == V4
  {
    TestPrefixesAreNets();
    JustTheNetSplit("    ", V4, " pelican");
  }

  /** `test_just_the_net`: a bare IPv6 prefix. */
  lemma JustTheNetV6Bare()
    ensures JustTheNet(V6) == V6
  {
    TestPrefixesAreNets();
    JustTheNetOfNet(V6);
  }

  /** `test_just_the_net`: an indented IPv6 prefix. */
  lemma JustTheNetV6Indented()
    ensures JustTheNet("    " + V6) == V6
  {
    TestPrefixesAreNets();
    assert "    " + V6 + "" == "    " + V6;
    JustTheNetSplit("    ", V6, "");
  }

  /** `test_just_the_net`: an indented IPv6 prefix followed by a word. */
  lemma JustTheNetV6Noted()
    ensures JustTheNet("    " + V6 + " pelican") == V6
  {
    TestPrefixesAreNets();
    JustTheNetSplit("    ", V6, " pelican");
  }

  /** `test_just_the_net`: a line without a network leaves nothing. */
  lemma JustTheNetNoNet()
    ensures JustTheNet("    pelican") == ""
  {
    assert "    " + "" + "pelican" == "    pelican";
    JustTheNetSplit("    ", "", "pelican");
  }

  /** The text of the first `test_extract_nets` case is two complete lines. */
  lemma PlainText(x: string, y: string)
    ensures Terminated([x, y]) == x + "\n" + y + "\n"
  {
    assert Terminated([x, y][1..]) == y + "\n";
  }

  /** `test_extract_nets`, first case, for any two nets that parse. */
  lemma ExtractTwoLines<N>(parse: string -> Option<N>, x: string, y: string, a: N, b: N)
    requires AllNetChars(x) && AllNetChars(y)
    requires parse(x) == Some(a) && parse(y) == Some(b)
    ensures ExtractNets(parse, Terminated([x, y])) == [a, b]
  {
    var ls, f := [x, y], LineNet(parse);
    forall i | 0 <= i < 2 ensures IsPlainLine(ls[i]) && f(ls[i]) == Some([a, b][i]) {
      NetIsPlainLine(ls[i]);
      JustTheNetOfNet(ls[i]);
    }
    LinesOfTerminated(ls);
    FilterMapAllSome(f, ls, [a, b]);
  }

  /** `test_extract_nets`, first case: one network per line. */
  lemma ExtractNetsPlain<N>(parse: string -> Option<N>, a: N, b: N)
    requires parse(V4) == Some(a) && parse(V6) == Some(b)
    ensures ExtractNets(parse, V4 + "\n" + V6 + "\n") == [a, b]
  {
    PlainText(V4, V6);
    TestPrefixesAreNets();
    ExtractTwoLines(parse, V4, V6, a, b);
  }

  /** The text of the second `test_extract_nets` case is four complete lines. */
  lemma NoisyText(x: string, c: string, y: string)
    ensures Terminated(["  " + x, "", c, y]) == "  " + x + "\n\n" + c + "\n" + y + "\n"
  {
    var ls := ["  " + x, "", c, y];
    assert Terminated(ls[3..]) == y + "\n";
    assert Terminated(ls[2..]) == c + "\n" + y + "\n";
    assert Terminated(ls[1..]) == "\n" + c + "\n" + y + "\n";
  }

  /** The four lines of that text, regrouped around the two lines that hold no network. */
  lemma FourLines<T>(p: T, q: T, r: T, t: T)
    ensures [p, q, r, t] == [p] + [q] + [r, t]
    ensures [p] + [r, t] == [p] + [r] + [t]
    ensures [p] + [t] == [p, t]
  {
  }

  /** An indented net is cut to the net, which parses. */
  lemma IndentedNetParses<N>(parse: string -> Option<N>, x: string, a: N)
    requires AllNetChars(x) && parse(x) == Some(a)
    ensures LineNet(parse)("  " + x) == Some(a)
  {
    assert "  " + x + "" == "  " + x;
    JustTheNetSplit("  ", x, "");
  }

  /** A comment line, starting with a character that is neither whitespace nor a net character, holds no network. */
  lemma CommentLineParsesToNothing<N>(parse: string -> Option<N>, c: string)
    requires c != [] && !IsWhitespace(c[0]) && !IsNetChar(c[0]) && parse([]) == None
    ensures LineNet(parse)(c) == None
  {
    TrimStartUnique(c, c);
    NonNetLineParsesToNothing(parse, c);
  }

  /** The networks of those lines: the blank line and a comment line `c` give none. */
  lemma NoisyNets<N>(parse: string -> Option<N>, x: string, c: string, y: string, a: N, b: N)
    requires AllNetChars(x) && AllNetChars(y)
    requires c != [] && !IsWhitespace(c[0]) && !IsNetChar(c[0])
    requires parse(x) == Some(a) && parse(y) == Some(b) && parse([]) == None
    ensures FilterMap(LineNet(parse), ["  " + x, "", c, y]) == [a, b]
  {
    var f, n := LineNet(parse), "  " + x;
    FourLines(n, "", c, y);
    NonNetLineContributesNothing(parse, [n], "", [c, y]);
    CommentLineParsesToNothing(parse, c);
    TrimStartUnique(c, c);
    NonNetLineContributesNothing(parse, [n], c, [y]);
    IndentedNetParses(parse, x, a);
    JustTheNetOfNet(y);
    FilterMapAllSome(f, [n, y], [a, b]);
  }

  /** `test_extract_nets`, second case, for any two nets that parse and a comment line `c`. */
  lemma ExtractNoisyLines<N>(parse: string -> Option<N>, x: string, c: string, y: string, a: N, b: N)
    requires AllNetChars(x) && AllNetChars(y)
    requires c != [] && !IsWhitespace(c[0]) && !IsNetChar(c[0]) && IsPlainLine(c)
    requires parse(x) == Some(a) && parse(y) == Some(b) && parse([]) == None
    ensures ExtractNets(parse, Terminated(["  " + x, "", c, y])) == [a, b]
  {
    var ls := ["  " + x, "", c, y];
    NetIsPlainLine(y);
    assert IsPlainLine("  " + x) by {
      NetIsPlainLine(x);
      assert x != [] ==> ("  " + x)[|"  " + x| - 1] == x[|x| - 1];
    }
    LinesOfTerminated(ls);
    NoisyNets(parse, x, c, y, a, b);
  }

  /** `test_extract_nets`, second case: indentation, a blank line and a comment line are skipped. */
  lemma ExtractNetsNoisy<N>(parse: string -> Option<N>, a: N, b: N)
    requires parse(V4) == Some(a) && parse(V6) == Some(b) && parse([]) == None
    ensures ExtractNets(parse, "  " + V4 + "\n\n# comment\n" + V6 + "\n") == [a, b]
  {
    NoisyText(V4, "# comment", V6);
    assert "  " + V4 + "\n\n" + "# comment" + "\n" + V6 + "\n" == "  " + V4 + "\n\n# comment\n" + V6 + "\n";
    TestPrefixesAreNets();
    assert IsPlainLine("# comment");
    ExtractNoisyLines(parse, V4, "# comment", V6, a, b);
  }

  /** `test_write_nets`: two networks, one per line, each ended by a line feed. */
  lemma WriteNetsTwo<N>(show: N -> string, a: N, b: N)
    requires show(a) == V4 && show(b) == V6
    ensures WriteNets(show, [a, b]) == V4 + "\n" + V6 + "\n"
  {
    var ss := ShowAll(show, [a, b]);
    assert ss == [V4, V6];
    PlainText(V4, V6);
  }
}
