/**
 * What `write_nets` writes, `extract_nets` reads back: the output file of
 * src/main.rs is a valid input list.
 */
module RoundTrip {
  import opened Wrappers
  import opened Text
  import opened Extractor
  import opened Serialiser

  /**
   * Extracting the written list gives the list back, provided that each
   * network shows as net characters only and parses back to itself, and that
   * the empty string does not parse (the empty list is written as one empty
   * line).
   */
  lemma ExtractWritten<N>(parse: string -> Option<N>, show: N -> string, ns: seq<N>)
    requires parse([]) == None
    requires forall i :: 0 <= i < |ns| ==> AllNetChars(show(ns[i])) && parse(show(ns[i])) == Some(ns[i])
    ensures ExtractNets(parse, WriteNets(show, ns)) == ns
  {
    var f := LineNet(parse);
    if ns == [] {
      assert WriteNets(show, ns) == Terminated([[]]);
      LinesOfTerminated([[]]);
      JustTheNetOfNet([]);
    } else {
      var ss := ShowAll(show, ns);
      forall i | 0 <= i < |ss| ensures IsPlainLine(ss[i]) && f(ss[i]) == Some(ns[i]) {
        NetIsPlainLine(ss[i]);
        JustTheNetOfNet(ss[i]);
      }
      LinesOfTerminated(ss);
      FilterMapAllSome(f, ss, ns);
    }
  }
}
