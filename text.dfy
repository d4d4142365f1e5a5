/** Words joined by single spaces, as the samples build and take apart descriptions and command lines. */
module Text {

  /** The total number of characters in the words. */
  function TotalLength(words: seq<string>): nat {
    if words == [] then 0 else |words[0]| + TotalLength(words[1..])
  }

  /** The words, separated by one space each. */
  function Join(words: seq<string>): (s: string)
    ensures words == [] ==> s == []
    ensures words != [] ==> |s| == TotalLength(words) + |words| - 1
  {
    if words == [] then []
    else if |words| == 1 then words[0]
    else words[0] + " " + Join(words[1..])
  }
}
