/** The address range of a realm, derived from its network and netmask. */
module Ranges {

  /** Four octets, as the C `int[4]`. The configuration's dotted quads are
      taken already parsed; no octet is checked against 0..255. */
  type Quad = q: seq<int> | |q| == 4 witness [0, 0, 0, 0]

  /** Inclusive start and end octets of a realm. */
  datatype Range = Range(start: Quad, end: Quad)

  /** The range arithmetic of the configuration loader: the start is the
      network verbatim, each end octet is the start octet widened by the
      host bits of the matching netmask octet, so every octet spans
      `256 - mask` values; a mask octet of 255 pins it (end equals start)
      and a mask octet above 255 leaves an empty span. */
  function Derive(network: Quad, netmask: Quad): (r: Range)
    ensures r.start == network
    ensures forall j :: 0 <= j < 4 ==> Span(r, j) == 256 - netmask[j]
    ensures forall j :: 0 <= j < 4 ==> (netmask[j] == 255 <==> r.end[j] == r.start[j])
    ensures forall j :: 0 <= j < 4 ==> (netmask[j] <= 255 <==> r.end[j] >= r.start[j])
  {
    Range(network, seq(4, j requires 0 <= j < 4 => network[j] + 255 - netmask[j]))
  }

  /** How many values octet `j` runs through from start to end. */
  function Span(r: Range, j: nat): int
    requires j < 4
  {
    r.end[j] - r.start[j] + 1
  }
}
