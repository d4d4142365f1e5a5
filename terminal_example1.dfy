/**
 * A transaction started from a terminal: it receives what was typed and splits
 * it into whitespace-separated arguments.
 */
module TerminalExample1 {
  import opened Cics
  import Text
  import opened StringTokenizers

  /**
   * The task's principal facility. A terminal's receive fills the data holder
   * with `received` and then raises `raised`, if anything.
   */
  datatype PrincipalFacility = Terminal(received: string, raised: Option<Condition>) | OtherFacility

  /**
   * `getTerminalString`: the data received from the terminal, null (None) when
   * the principal facility is not a terminal; EOC is normal, any other
   * condition propagates.
   */
  function GetTerminalString(pf: PrincipalFacility): (r: Result<Option<string>, Condition>)
    ensures r == Ok(None) <==> pf.OtherFacility?
    ensures r.Err? <==> pf.Terminal? && pf.raised.Some? && pf.raised.value != EndOfChainIndicator
    ensures r.Err? ==> r.error == pf.raised.value
    ensures r.Ok? && pf.Terminal? ==> r.value == Some(pf.received)
  {
    match pf
    case OtherFacility => Ok(None)
    case Terminal(received, raised) =>
      if raised.Some? && raised.value != EndOfChainIndicator then Err(raised.value) else Ok(Some(received))
  }

  /** `parseTerminalString`: the tokens of the input, collected in a list and copied to an array. */
  method ParseTerminalString(strTerm: string) returns (termArgs: array<string>)
    ensures fresh(termArgs)
    ensures termArgs[..] == Tokens(strTerm)
    ensures termArgs.Length == 0 <==> AllDelimiters(strTerm)
    ensures forall i :: 0 <= i < termArgs.Length ==> termArgs[i] != [] && NoDelimiter(termArgs[i])
    ensures Text.Join(termArgs[..]) == Collapsed(strTerm)
  {
    var args: seq<string> := [];
    var tok := new StringTokenizer(strTerm);
    var more := tok.HasMoreTokens();
    while more
      invariant fresh(tok) && tok.Valid()
      invariant args + tok.Remaining() == Tokens(strTerm)
      invariant more <==> tok.Remaining() != []
      decreases |tok.Remaining()|
    {
      var t := tok.NextToken();
      args := args + [t];
      more := tok.HasMoreTokens();
    }
    termArgs := new string[|args|](i requires 0 <= i < |args| => args[i]);
    assert termArgs[..] == args;
    NoTokens(strTerm);
    JoinTokens(strTerm);
    forall i | 0 <= i < termArgs.Length
      ensures termArgs[i] != [] && NoDelimiter(termArgs[i])
    {
      assert termArgs[i] in Tokens(strTerm);
    }
  }

  /**
   * The arguments `main` lists: none parsed when there is no terminal (None),
   * the tokens of the received data otherwise; a condition from the receive
   * propagates.
   */
  method TerminalArguments(pf: PrincipalFacility) returns (r: Result<Option<array<string>>, Condition>)
    ensures r.Err? <==> GetTerminalString(pf).Err?
    ensures r.Err? ==> r.error == GetTerminalString(pf).error
    ensures r.Ok? ==> (r.value.None? <==> pf.OtherFacility?)
    ensures r.Ok? && r.value.Some? ==> fresh(r.value.value) && r.value.value[..] == Tokens(pf.received)
  {
    var strTerm := GetTerminalString(pf);
    if strTerm.Err? {
      return Err(strTerm.error);
    }
    if strTerm.value.None? {
      return Ok(None);
    }
    var termArgs := ParseTerminalString(strTerm.value.value);
    r := Ok(Some(termArgs));
  }
}
