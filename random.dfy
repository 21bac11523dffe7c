/** The random helpers of the report generator, with each `Math.random()`
    call replaced by a draw passed in as a parameter. */
module Random {

  /** The value of one `Math.random()` call: a number in [0, 1). */
  type Draw = r: real | 0.0 <= r < 1.0

  /** `Math.floor(Math.random() * n)`: an index below `n`. */
  function Index(u: Draw, n: nat): (i: nat)
    requires 0 < n
    ensures i < n
  {
    var x := u * n as real;
    assert x < n as real by {
      assert u * n as real < 1.0 * n as real;
    }
    x.Floor
  }

  /** `randInt(min, max)`: an integer of the closed range. */
  function RandInt(u: Draw, min: int, max: int): (r: int)
    requires min <= max
    ensures min <= r <= max
  {
    Index(u, max - min + 1) + min
  }

  /** `randChoice(arr)`: one of the elements. */
  function RandChoice<T>(arr: seq<T>, u: Draw): (x: T)
    requires |arr| > 0
    ensures x in arr
  {
    arr[Index(u, |arr|)]
  }

  const Bases: string := "ATCG"

  /** The nucleotide string that `randSeq` builds from one draw per base. */
  function Nucleotides(draws: seq<Draw>): (s: string)
    ensures |s| == |draws|
    ensures forall i :: 0 <= i < |s| ==> s[i] in Bases
  {
    seq(|draws|, i requires 0 <= i < |draws| => RandChoice(Bases, draws[i]))
  }

  /** `randSeq(len)`, with its loop that appends one base per draw. */
  method RandSeq(len: nat, draws: seq<Draw>) returns (s: string)
    requires len <= |draws|
    ensures s == Nucleotides(draws[..len])
  {
    s := "";
    var i := 0;
    while i < len
      invariant 0 <= i <= len
      invariant s == Nucleotides(draws[..i])
    {
      s := s + [RandChoice(Bases, draws[i])];
      i := i + 1;
    }
  }
}
