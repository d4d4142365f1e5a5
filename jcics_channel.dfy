/**
 * A CICS channel and its containers, as the JCICS `Channel` and `Container`
 * classes present them to a program: named containers holding either
 * character data (a CHAR container, written with `putString`) or binary data
 * (a BIT container, written with `put`).
 */
module JcicsChannel {
  import opened Cics
  import opened BigEndian

  datatype ContainerData = CharData(text: string) | BitData(bytes: seq<byte>)

  class Channel {
    const name: string
    /** The condition CICS raises for any request on a container of that name. */
    const faults: map<string, Condition>
    var containers: map<string, ContainerData>

    constructor(name: string, faults: map<string, Condition>, containers: map<string, ContainerData>)
      ensures this.name == name && this.faults == faults && this.containers == containers
    {
      this.name := name;
      this.faults := faults;
      this.containers := containers;
    }

    function Refused(container: string): Option<Condition> {
      if container in faults then Some(faults[container]) else None
    }

    /** `getContainer`: whether the container exists (JCICS answers null when it does not). */
    method GetContainer(container: string) returns (r: Result<bool, Condition>)
      ensures Refused(container).Some? ==> r == Err(Refused(container).value)
      ensures Refused(container).None? ==> r == Ok(container in containers)
    {
      if container in faults {
        r := Err(faults[container]);
      } else {
        r := Ok(container in containers);
      }
    }

    /** `getString` on an existing container: its text, CCSIDERR when it holds binary data. */
    method GetString(container: string) returns (r: Result<string, Condition>)
      requires container in containers
      ensures Refused(container).Some? ==> r == Err(Refused(container).value)
      ensures Refused(container).None? && containers[container].CharData? ==> r == Ok(containers[container].text)
      ensures Refused(container).None? && containers[container].BitData? ==> r == Err(CcsidError)
    {
      if container in faults {
        r := Err(faults[container]);
      } else if containers[container].CharData? {
        r := Ok(containers[container].text);
      } else {
        r := Err(CcsidError);
      }
    }

    /** `get` on an existing container: its bytes, CCSIDERR when it holds text. */
    method Get(container: string) returns (r: Result<seq<byte>, Condition>)
      requires container in containers
      ensures Refused(container).Some? ==> r == Err(Refused(container).value)
      ensures Refused(container).None? && containers[container].BitData? ==> r == Ok(containers[container].bytes)
      ensures Refused(container).None? && containers[container].CharData? ==> r == Err(CcsidError)
    {
      if container in faults {
        r := Err(faults[container]);
      } else if containers[container].BitData? {
        r := Ok(containers[container].bytes);
      } else {
        r := Err(CcsidError);
      }
    }

    /** `createContainer` followed by `putString` (for CharData) or `put` (for BitData). */
    method Put(container: string, data: ContainerData) returns (c: Option<Condition>)
      modifies this
      ensures c == Refused(container)
      ensures c.Some? ==> containers == old(containers)
      ensures c.None? ==> containers == old(containers)[container := data]
    {
      c := Refused(container);
      if c.None? {
        containers := containers[container := data];
      }
    }
  }
}
