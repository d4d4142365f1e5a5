/**
 * The client side of the EDUCHAN pair: it builds the channel EDUCHAN with the
 * text "Hello from Java" in INPUTDATA, links to the program EDUCHAN, and then
 * reads the date from CICSTIME and the four-byte return code from CICSRC to
 * form its final message.
 */
module LinkProg3 {
  import opened Cics
  import opened BigEndian
  import opened JcicsChannel
  import LinkServEduchan

  const PROG_NAME: string := "EDUCHAN"
  const CHANNEL: string := "EDUCHAN"
  const INPUT_CONTAINER: string := "INPUTDATA"
  const DATE_CONTAINER: string := "CICSTIME"
  const CICSRC_CONTAINER: string := "CICSRC"
  const INPUTSTRING: string := "Hello from Java"

  /** The date text when CICSTIME is missing. */
  const MISSING_DATE: string := "<missing>"

  /** The abend code when a container that is present cannot be read. */
  const GET_ABEND: string := "LPGC"

  /** The final message main prints. */
  datatype Message =
    | Returned(program: string, rc: int32, date: string) // "Returned from link to {0} with rc({1}) date {2}"
    | NoReturnCode(program: string)                      // "Returned from link to {0} with no CICS RC"
    | LinkError(program: string, cause: Condition)       // "ERROR from link to {0} with message({1})"

  /** How main ends after the link. */
  datatype Outcome = Printed(message: Message) | Abended(code: string) | Thrown(failure: Failure)

  /** The containers `buildChannel` sends. */
  function Sent(): map<string, ContainerData> {
    map[INPUT_CONTAINER := CharData(INPUTSTRING)]
  }

  /** `buildChannel`: a new channel EDUCHAN whose INPUTDATA holds INPUTSTRING; a condition escapes unchecked. */
  method BuildChannel(faults: map<string, Condition>) returns (r: Result<Channel, Failure>)
    ensures INPUT_CONTAINER in faults ==> r == Err(RuntimeFailure(faults[INPUT_CONTAINER], Unreported))
    ensures INPUT_CONTAINER !in faults ==>
              && r.Ok? && fresh(r.value)
              && r.value.name == CHANNEL && r.value.faults == faults && r.value.containers == Sent()
  {
    var chan := new Channel(CHANNEL, faults, map[]);
    var c := chan.Put(INPUT_CONTAINER, CharData(INPUTSTRING));
    if c.Some? {
      r := Err(RuntimeFailure(c.value, Unreported));
    } else {
      r := Ok(chan);
    }
  }

  /** `ByteBuffer.wrap(ba).getInt()`: the first four bytes as a big-endian `int`. */
  function GetInt(ba: seq<byte>): (r: Result<int32, Failure>)
    ensures r.Err? <==> |ba| < 4
    ensures r.Err? ==> r.error == BufferUnderflow(|ba|)
  {
    if |ba| < 4 then Err(BufferUnderflow(|ba|)) else Ok(BytesToInt(ba[..4]))
  }

  /** Decoding what `buildRcContainer` encodes gives back the return code. */
  lemma GetIntRoundTrip(rc: int32)
    ensures GetInt(IntToBytes(rc)) == Ok(rc)
  {
    IntRoundTrip(rc);
    assert IntToBytes(rc)[..4] == IntToBytes(rc);
  }

  /** The outcome of main after the link, on a channel with these faults and containers. */
  function ClientOutcome(faults: map<string, Condition>, containers: map<string, ContainerData>): Outcome {
    if DATE_CONTAINER in faults then Printed(LinkError(PROG_NAME, faults[DATE_CONTAINER]))
    else if DATE_CONTAINER in containers && containers[DATE_CONTAINER].BitData? then Abended(GET_ABEND)
    else
      var date := if DATE_CONTAINER in containers then containers[DATE_CONTAINER].text else MISSING_DATE;
      if CICSRC_CONTAINER in faults then Printed(LinkError(PROG_NAME, faults[CICSRC_CONTAINER]))
      else if CICSRC_CONTAINER !in containers then Printed(NoReturnCode(PROG_NAME))
      else if containers[CICSRC_CONTAINER].CharData? then Abended(GET_ABEND)
      else match GetInt(containers[CICSRC_CONTAINER].bytes)
        case Err(f) => Thrown(f)
        case Ok(rc) => Printed(Returned(PROG_NAME, rc, date))
  }

  /** The part of `main` after the link: read CICSTIME and CICSRC and form the message. */
  method Report(chan: Channel) returns (outcome: Outcome)
    ensures outcome == ClientOutcome(chan.faults, chan.containers)
  {
    var resultStr: string;
    var dateFound := chan.GetContainer(DATE_CONTAINER);
    if dateFound.Err? {
      return Printed(LinkError(PROG_NAME, dateFound.error));
    }
    if dateFound.value {
      var got := chan.GetString(DATE_CONTAINER);
      if got.Err? {
        return Abended(GET_ABEND);
      }
      resultStr := got.value;
    } else {
      resultStr := MISSING_DATE;
    }
    var rcFound := chan.GetContainer(CICSRC_CONTAINER);
    if rcFound.Err? {
      return Printed(LinkError(PROG_NAME, rcFound.error));
    }
    if rcFound.value {
      var ba := chan.Get(CICSRC_CONTAINER);
      if ba.Err? {
        return Abended(GET_ABEND);
      }
      var cicsrc := GetInt(ba.value);
      if cicsrc.Err? {
        return Thrown(cicsrc.error);
      }
      outcome := Printed(Returned(PROG_NAME, cicsrc.value, resultStr));
    } else {
      outcome := Printed(NoReturnCode(PROG_NAME));
    }
  }

  /**
   * A CICSRC holding an encoded return code is reported with that code, and with
   * the text of CICSTIME as the date, or "<missing>" when there is no CICSTIME.
   */
  lemma ReportsReturnCode(faults: map<string, Condition>, containers: map<string, ContainerData>, rc: int32,
                          date: string)
    requires DATE_CONTAINER !in faults && CICSRC_CONTAINER !in faults
    requires DATE_CONTAINER in containers ==> containers[DATE_CONTAINER] == CharData(date)
    requires DATE_CONTAINER !in containers ==> date == MISSING_DATE
    requires CICSRC_CONTAINER in containers && containers[CICSRC_CONTAINER] == BitData(IntToBytes(rc))
    ensures ClientOutcome(faults, containers) == Printed(Returned(PROG_NAME, rc, date))
  {
    GetIntRoundTrip(rc);
  }

  /** A missing CICSRC gives the "no CICS RC" message, whatever the date container holds as text. */
  lemma MissingReturnCode(faults: map<string, Condition>, containers: map<string, ContainerData>)
    requires DATE_CONTAINER !in faults && CICSRC_CONTAINER !in faults && CICSRC_CONTAINER !in containers
    requires DATE_CONTAINER in containers ==> containers[DATE_CONTAINER].CharData?
    ensures ClientOutcome(faults, containers) == Printed(NoReturnCode(PROG_NAME))
  {
  }

  /**
   * The link from end to end: the channel `buildChannel` sends, served by
   * EDUCHAN at time `now`, comes back with the server's return code, and with
   * the date unless the server's output container could not be written.
   */
  lemma {:induction false} LinkRoundTrip(faults: map<string, Condition>, now: string)
    requires INPUT_CONTAINER !in faults && DATE_CONTAINER !in faults && CICSRC_CONTAINER !in faults
    ensures var rc := LinkServEduchan.ServerCode(faults, Sent());
            && rc == (if LinkServEduchan.OUTPUT_CONTAINER in faults
                      then LinkServEduchan.CodeFor(faults[LinkServEduchan.OUTPUT_CONTAINER])
                      else LinkServEduchan.Success)
            && LinkServEduchan.ServerOutcome(faults, Sent()) == LinkServEduchan.Completed(rc)
            && ClientOutcome(faults, LinkServEduchan.ServerContainers(faults, Sent(), now))
               == Printed(Returned(PROG_NAME, LinkServEduchan.NumVal(rc),
                                   if LinkServEduchan.OUTPUT_CONTAINER in faults then MISSING_DATE else now))
  {
    var sent := Sent();
    var output := LinkServEduchan.OUTPUT_CONTAINER;
    var rc := LinkServEduchan.ServerCode(faults, sent);
    var after := LinkServEduchan.ServerContainers(faults, sent, now);
    assert LinkServEduchan.Raised(faults, sent) == if output in faults then Some(faults[output]) else None;
    LinkServEduchan.ServedContainers(faults, sent, now);
    ReportsReturnCode(faults, after, LinkServEduchan.NumVal(rc), if output in faults then MISSING_DATE else now);
  }
}
