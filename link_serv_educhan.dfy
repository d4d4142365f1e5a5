/**
 * The Java counterpart of the EDUCHAN program: it reads the INPUTDATA container
 * of its current channel, puts the text reversed into OUTPUTDATA and the time
 * into CICSTIME, and reports how that went as a return code in the four-byte
 * BIT container CICSRC.
 */
module LinkServEduchan {
  import opened Cics
  import opened BigEndian
  import opened JcicsChannel

  const INPUT_CONTAINER: string := "INPUTDATA"
  const DATE_CONTAINER: string := "CICSTIME"
  const CICSRC_CONTAINER: string := "CICSRC"
  const OUTPUT_CONTAINER: string := "OUTPUTDATA"

  /** The abend code when the program runs without a current channel. */
  const NO_CHANNEL_ABEND: string := "NOCH"

  /** The program's return codes (the `ReturnCode` enum). */
  datatype ReturnCode = Success | ContainerErr | CcsidErr | CodePageErr | ChannelErr | InvReqErr | OtherError

  /** `getNumVal`: the number sent back for a return code. */
  function NumVal(rc: ReturnCode): (n: int32)
    ensures n == 0 <==> rc == Success
    ensures n == 0 || 100 <= n <= 105
  {
    match rc
    case Success => 0
    case ContainerErr => 100
    case CcsidErr => 101
    case CodePageErr => 102
    case ChannelErr => 103
    case InvReqErr => 104
    case OtherError => 105
  }

  /** The return code a number stands for, if any. */
  function FromNumVal(n: int): Option<ReturnCode> {
    if n == 0 then Some(Success)
    else if n == 100 then Some(ContainerErr)
    else if n == 101 then Some(CcsidErr)
    else if n == 102 then Some(CodePageErr)
    else if n == 103 then Some(ChannelErr)
    else if n == 104 then Some(InvReqErr)
    else if n == 105 then Some(OtherError)
    else None
  }

  /** The numbers tell the return codes apart: the caller can recover the code from the number. */
  lemma NumValInverse(rc: ReturnCode)
    ensures FromNumVal(NumVal(rc)) == Some(rc)
  {
  }

  /** The return code for a condition caught in main; a condition never yields OK or CONTAINERERR. */
  function CodeFor(c: Condition): (rc: ReturnCode)
    ensures rc != Success && rc != ContainerErr
    ensures rc == CcsidErr <==> c == CcsidError
    ensures rc == ChannelErr <==> c == ChannelError
    ensures rc == CodePageErr <==> c == CodePageError
    ensures rc == InvReqErr <==> c.InvalidRequest?
  {
    if c == CcsidError then CcsidErr
    else if c == ChannelError then ChannelErr
    else if c == CodePageError then CodePageErr
    else if c.InvalidRequest? then InvReqErr
    else OtherError
  }

  /** `new StringBuilder(s).reverse().toString()`. */
  function Reverse(s: string): (r: string)
    ensures |r| == |s|
    ensures forall i :: 0 <= i < |s| ==> r[i] == s[|s| - 1 - i]
  {
    if s == [] then [] else Reverse(s[1..]) + [s[0]]
  }

  lemma ReverseReverse(s: string)
    ensures Reverse(Reverse(s)) == s
  {
    var r := Reverse(Reverse(s));
    assert forall i :: 0 <= i < |s| ==> r[i] == s[i];
  }

  /**
   * The condition main's try block raises, if any, on a channel whose requests
   * fail as `faults` says and whose containers are `containers`.
   */
  function Raised(faults: map<string, Condition>, containers: map<string, ContainerData>): Option<Condition> {
    if INPUT_CONTAINER in faults then Some(faults[INPUT_CONTAINER])
    else if INPUT_CONTAINER in containers && containers[INPUT_CONTAINER].BitData? then Some(CcsidError)
    else if INPUT_CONTAINER in containers && OUTPUT_CONTAINER in faults then Some(faults[OUTPUT_CONTAINER])
    else if DATE_CONTAINER in faults then Some(faults[DATE_CONTAINER])
    else None
  }

  /** The return code main puts into CICSRC. */
  function ServerCode(faults: map<string, Condition>, containers: map<string, ContainerData>): ReturnCode {
    match Raised(faults, containers)
    case Some(c) => CodeFor(c)
    case None => if INPUT_CONTAINER in containers then Success else ContainerErr
  }

  /** The containers of the channel after main, given the time it formats. */
  function ServerContainers(faults: map<string, Condition>, containers: map<string, ContainerData>, now: string)
    : map<string, ContainerData>
  {
    var reversed :=
      if INPUT_CONTAINER !in faults && INPUT_CONTAINER in containers && containers[INPUT_CONTAINER].CharData?
         && OUTPUT_CONTAINER !in faults
      then containers[OUTPUT_CONTAINER := CharData(Reverse(containers[INPUT_CONTAINER].text))]
      else containers;
    var dated := if Raised(faults, containers).None? then reversed[DATE_CONTAINER := CharData(now)] else reversed;
    if CICSRC_CONTAINER in faults then dated
    else dated[CICSRC_CONTAINER := BitData(IntToBytes(NumVal(ServerCode(faults, containers))))]
  }

  /** How main ends on a channel: an abend, or a return with its code, or an escaping exception. */
  datatype Outcome = Abended(code: string) | Completed(rc: ReturnCode) | Thrown(failure: Failure)

  function ServerOutcome(faults: map<string, Condition>, containers: map<string, ContainerData>): Outcome {
    if CICSRC_CONTAINER in faults then Thrown(RuntimeFailure(faults[CICSRC_CONTAINER], Unreported))
    else Completed(ServerCode(faults, containers))
  }

  /** `buildRcContainer`: rc as four big-endian bytes in the BIT container CICSRC. */
  method BuildRcContainer(chan: Channel, rc: int32) returns (r: Result<(), Failure>)
    modifies chan
    ensures CICSRC_CONTAINER in chan.faults ==>
              r == Err(RuntimeFailure(chan.faults[CICSRC_CONTAINER], Unreported)) && chan.containers == old(chan.containers)
    ensures CICSRC_CONTAINER !in chan.faults ==>
              r == Ok(()) && chan.containers == old(chan.containers)[CICSRC_CONTAINER := BitData(IntToBytes(rc))]
  {
    var c := chan.Put(CICSRC_CONTAINER, BitData(IntToBytes(rc)));
    if c.Some? {
      r := Err(RuntimeFailure(c.value, Unreported));
    } else {
      r := Ok(());
    }
  }

  /** `main`, run with the task's current channel (null when there is none) at time `now`. */
  method Serve(chan: Channel?, now: string) returns (outcome: Outcome)
    modifies chan
    ensures chan == null ==> outcome == Abended(NO_CHANNEL_ABEND)
    ensures chan != null ==> outcome == ServerOutcome(chan.faults, old(chan.containers))
    ensures chan != null ==> chan.containers == ServerContainers(chan.faults, old(chan.containers), now)
  {
    var rc := Success;
    if chan == null {
      return Abended(NO_CHANNEL_ABEND);
    }
    var raised: Option<Condition> := None;
    var input := chan.GetContainer(INPUT_CONTAINER);
    if input.Err? {
      raised := Some(input.error);
    } else {
      if input.value {
        var text := chan.GetString(INPUT_CONTAINER);
        if text.Err? {
          raised := Some(text.error);
        } else {
          raised := chan.Put(OUTPUT_CONTAINER, CharData(Reverse(text.value)));
        }
      } else {
        rc := ContainerErr;
      }
      if raised.None? {
        raised := chan.Put(DATE_CONTAINER, CharData(now));
      }
    }
    if raised.Some? {
      rc := CodeFor(raised.value);
    }
    var built := BuildRcContainer(chan, NumVal(rc));
    outcome := if built.Err? then Thrown(built.error) else Completed(rc);
  }

  /** With every request succeeding, OUTPUTDATA holds the input reversed and CICSRC holds 0. */
  lemma ServeReverses(faults: map<string, Condition>, containers: map<string, ContainerData>, now: string)
    requires INPUT_CONTAINER in containers && containers[INPUT_CONTAINER].CharData?
    requires INPUT_CONTAINER !in faults && OUTPUT_CONTAINER !in faults
    requires DATE_CONTAINER !in faults && CICSRC_CONTAINER !in faults
    ensures ServerOutcome(faults, containers) == Completed(Success)
    ensures var after := ServerContainers(faults, containers, now);
            && OUTPUT_CONTAINER in after && after[OUTPUT_CONTAINER].CharData?
            && Reverse(after[OUTPUT_CONTAINER].text) == containers[INPUT_CONTAINER].text
            && after[DATE_CONTAINER] == CharData(now)
            && after[CICSRC_CONTAINER] == BitData([0, 0, 0, 0])
  {
    var text := containers[INPUT_CONTAINER].text;
    assert Raised(faults, containers) == None;
    ServedContainers(faults, containers, now);
    assert ServerContainers(faults, containers, now)[OUTPUT_CONTAINER] == CharData(Reverse(text));
    ReverseReverse(text);
  }

  /** A missing INPUTDATA is not an exception: CICSRC says CONTAINERERR (100) and OUTPUTDATA is left alone. */
  lemma MissingInput(faults: map<string, Condition>, containers: map<string, ContainerData>, now: string)
    requires INPUT_CONTAINER !in containers
    requires INPUT_CONTAINER !in faults && DATE_CONTAINER !in faults && CICSRC_CONTAINER !in faults
    ensures ServerOutcome(faults, containers) == Completed(ContainerErr)
    ensures NumVal(ContainerErr) == 100
    ensures var after := ServerContainers(faults, containers, now);
            && (OUTPUT_CONTAINER in after <==> OUTPUT_CONTAINER in containers)
            && (OUTPUT_CONTAINER in containers ==> after[OUTPUT_CONTAINER] == containers[OUTPUT_CONTAINER])
            && after[DATE_CONTAINER] == CharData(now)
  {
  }

  /** The return code is 0 exactly when INPUTDATA was present and no condition was raised. */
  lemma ServerCodeZero(faults: map<string, Condition>, containers: map<string, ContainerData>)
    ensures NumVal(ServerCode(faults, containers)) == 0
            <==> Raised(faults, containers).None? && INPUT_CONTAINER in containers
  {
  }

  /** CICSTIME gets the time exactly when the try block completes; CICSRC always gets the code. */
  lemma ServedContainers(faults: map<string, Condition>, containers: map<string, ContainerData>, now: string)
    ensures var after := ServerContainers(faults, containers, now);
            && (DATE_CONTAINER in after <==> DATE_CONTAINER in containers || Raised(faults, containers).None?)
            && (Raised(faults, containers).None? ==> after[DATE_CONTAINER] == CharData(now))
            && (Raised(faults, containers).Some? && DATE_CONTAINER in containers ==>
                  after[DATE_CONTAINER] == containers[DATE_CONTAINER])
            && (CICSRC_CONTAINER !in faults ==>
                  after[CICSRC_CONTAINER] == BitData(IntToBytes(NumVal(ServerCode(faults, containers)))))
  {
  }

  /** CICSRC always holds exactly four bytes, and they decode to the return code main reports. */
  lemma {:induction false} RcContainerDecodes(faults: map<string, Condition>, containers: map<string, ContainerData>,
                                              now: string)
    requires CICSRC_CONTAINER !in faults
    ensures var after := ServerContainers(faults, containers, now);
            && CICSRC_CONTAINER in after && after[CICSRC_CONTAINER].BitData?
            && |after[CICSRC_CONTAINER].bytes| == 4
            && BytesToInt(after[CICSRC_CONTAINER].bytes) == NumVal(ServerCode(faults, containers))
            && FromNumVal(BytesToInt(after[CICSRC_CONTAINER].bytes)) == Some(ServerCode(faults, containers))
  {
    IntRoundTrip(NumVal(ServerCode(faults, containers)));
    NumValInverse(ServerCode(faults, containers));
  }
}
