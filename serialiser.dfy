/**
 * `write_nets` of src/main.rs: the text it writes to its sink.  The
 * `Display` of an `ipnet` network is the parameter `show`.
 */
module Serialiser {
  import opened Text

  /** `nets.iter().map(|net| net.to_string()).collect()`. */
  function ShowAll<N>(show: N -> string, ns: seq<N>): (ss: seq<string>)
    ensures |ss| == |ns| && forall i :: 0 <= i < |ns| ==> ss[i] == show(ns[i])
  {
    seq(|ns|, i requires 0 <= i < |ns| => show(ns[i]))
  }

  /**
   * `write_nets`: the shown networks joined by line feeds, then one more line
   * feed.  That is one line per network, in order, each ended by its line
   * feed; with no networks it is a single empty line.
   */
  function WriteNets<N>(show: N -> string, ns: seq<N>): (out: string)
    ensures ns == [] ==> out == "\n"
    ensures ns != [] ==> out == Terminated(ShowAll(show, ns))
  {
    var cidrList := Join(ShowAll(show, ns), "\n");
    assert ns != [] ==> cidrList + "\n" == Terminated(ShowAll(show, ns)) by {
      if ns != [] {
        JoinThenNewline(ShowAll(show, ns));
      }
    }
    cidrList + "\n"
  }
}
