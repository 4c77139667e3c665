/** The configuration parser of components/agents/config_parser.c as it updates its
    fields, proved against the parser machine. */
module ConfigCode {
  import opened Octets
  import opened Config
  import opened ConfigRoundTrip
  import Eid

  class Reader {
    var status: Status
    var stage: Stage
    var command: Command
    var digits: string
    var sent: seq<Command>

    ghost function Model(): Parser
      reads this
    {
      Parser(status, stage, command, digits, sent)
    }

    ghost predicate Valid()
      reads this
    {
      Wellformed(Model())
    }

    /** `config_parser_init` */
    constructor ()
      ensures Valid() && Model() == START
    {
      status, stage, command, digits, sent := Good, CommandType, START.command, "", [];
    }

    /** `config_parser_reset` after an error */
    method Reset()
      modifies this
      ensures Valid() && Model() == START.(sent := old(sent))
    {
      status, stage, command, digits := Good, CommandType, START.command, "";
    }

    method HeadStep(c: char)
      requires Valid() && InHead(stage)
      modifies this
      ensures Valid() && Model() == HeadByte(old(Model()), c)
    {
      hide Eid.Normalise, Eid.Decimal;
      if stage == NodeConfStart && c == '(' {
        stage, command := NodeConfEid, command.(eid := Some(""));
      } else if stage == NodeConfEid && c == ')' {
        stage, command := ReliabilitySeparator, command.(eid := Some(Eid.Normalise(command.eid.value)));
      } else if stage == NodeConfEid && IsUriChar(c) {
        command := command.(eid := Some(command.eid.value + [c]));
      } else if stage == ReliabilitySeparator && c == ',' {
        stage, digits := Reliability, "";
      } else if stage == Reliability && (c == ':' || c == ';') {
        var n := Eid.Decimal(digits) % TWO_16;
        digits := "";
        if n < 100 || n > 1000 {
          status := Error;
          return;
        }
        stage := AddressStart;
        if c == ';' {
          status := Done;
        }
      } else if stage == Reliability && Eid.IsDigit(c) {
        digits := digits + [c];
      } else if (stage == ReliabilitySeparator || stage == AddressSeparator) && c == ':' {
        stage := AddressStart;
      } else if stage == AddressStart && c == '(' {
        stage, command := Address, command.(address := Some(""));
      } else if stage == Address {
        if c == ')' {
          stage := AddressNodesSeparator;
        } else {
          command := command.(address := Some(command.address.value + [c]));
        }
      } else if (stage == AddressStart || stage == AddressNodesSeparator) && c == ':' {
        stage := NodeListStart;
      } else if c == ';' && (stage == ReliabilitySeparator || stage == AddressSeparator || stage == AddressStart
                             || stage == AddressNodesSeparator) {
        status := Done;
      } else {
        status := Error;
      }
    }

    method NodesStep(c: char)
      requires Valid() && InNodes(stage)
      modifies this
      ensures Valid() && Model() == NodesByte(old(Model()), c)
    {
      hide Eid.Normalise;
      if stage == NodeListStart && c == '[' {
        stage := NodeStart;
      } else if stage == NodeStart && c == '(' {
        stage, command := NodeEid, command.(endpoints := command.endpoints + [""]);
      } else if stage == NodeEid && c == ')' {
        var eid := Eid.Normalise(Last(command.endpoints));
        stage, command := NodeSeparator, command.(endpoints := WithLast(command.endpoints, eid));
      } else if stage == NodeEid && IsUriChar(c) {
        command := command.(endpoints := WithLast(command.endpoints, Last(command.endpoints) + [c]));
      } else if stage == NodeSeparator && c == ',' {
        stage := NodeStart;
      } else if (stage == NodeStart || stage == NodeSeparator) && c == ']' {
        stage := NodesContactsSeparator;
      } else if (stage == NodeListStart || stage == NodesContactsSeparator) && c == ':' {
        stage := ContactListStart;
      } else if (stage == NodeListStart || stage == NodesContactsSeparator) && c == ';' {
        status := Done;
      } else {
        status := Error;
      }
    }

    /** The current contact is replaced. */
    method SetContact(contact: Contact)
      requires command.contacts != []
      modifies this`command
      ensures command == old(command).(contacts := WithLast(old(command).contacts, contact))
    {
      command := command.(contacts := WithLast(command.contacts, contact));
    }

    method NumbersStep(c: char)
      requires Valid() && stage in {StartTime, EndTime, Bitrate}
      modifies this
      ensures Valid() && Model() == NumbersByte(old(Model()), c)
    {
      hide Saturated;
      var contact := Last(command.contacts);
      if Eid.IsDigit(c) {
        digits := digits + [c];
      } else if stage == Bitrate && (c == ',' || c == '}') {
        var n := Saturated(digits);
        digits := "";
        SetContact(contact.(bitrate := n % TWO_32));
        stage := if c == ',' then ContactNodeListStart else ContactSeparator;
      } else if stage != Bitrate && c == ',' {
        var n := Saturated(digits);
        digits := "";
        if n >= (TWO_64 - 1) / 1000 {
          SetContact(if stage == StartTime then contact.(fromMs := n) else contact.(toMs := n));
          status := Error;
        } else if stage == StartTime {
          SetContact(contact.(fromMs := n * 1000));
          stage := EndTime;
        } else {
          SetContact(contact.(toMs := n * 1000));
          stage := Bitrate;
        }
      } else {
        status := Error;
      }
    }

    method ContactsStep(c: char)
      requires Valid() && !InHead(stage) && !InNodes(stage) && stage !in {StartTime, EndTime, Bitrate}
      modifies this
      ensures Valid() && Model() == ContactsByte(old(Model()), c)
    {
      hide Eid.Normalise;
      if stage == ContactListStart && c == '[' {
        stage := ContactStart;
      } else if stage == ContactStart && c == '{' {
        stage, digits := StartTime, "";
        command := command.(contacts := command.contacts + [Contact(0, 0, 0, [])]);
      } else if stage == ContactNodeListStart && c == '[' {
        stage := ContactNodeStart;
      } else if stage == ContactNodeStart && c == '(' {
        var contact := Last(command.contacts);
        SetContact(contact.(endpoints := contact.endpoints + [""]));
        stage, digits := ContactNodeEid, "";
      } else if stage == ContactNodeEid && (c == ')' || IsUriChar(c)) {
        var contact := Last(command.contacts);
        var eid := Last(contact.endpoints);
        eid := if c == ')' then Eid.Normalise(eid) else eid + [c];
        SetContact(contact.(endpoints := WithLast(contact.endpoints, eid)));
        stage, digits := if c == ')' then ContactNodeSeparator else ContactNodeEid, "";
      } else if stage == ContactNodeSeparator && c == ',' {
        stage := ContactNodeStart;
      } else if (stage == ContactNodeStart || stage == ContactNodeSeparator) && c == ']' {
        stage := ContactEnd;
      } else if stage == ContactEnd && c == '}' {
        stage := ContactSeparator;
      } else if stage == ContactSeparator && c == ',' {
        stage := ContactStart;
      } else if (stage == ContactStart || stage == ContactSeparator) && c == ']' {
        stage := CommandEnd;
      } else if (stage == ContactListStart || stage == CommandEnd) && c == ';' {
        status := Done;
      } else {
        status := Error;
      }
    }

    /** `config_parser_read_byte` */
    method Byte(c: char)
      requires Valid()
      modifies this
      ensures Valid() && Model() == ReadByte(old(Model()), c)
    {
      hide HeadByte, NodesByte, NumbersByte, ContactsByte;
      if status != Good {
        return;
      }
      if stage == CommandType {
        stage := NodeConfStart;
        if '1' <= c <= '4' {
          command := command.(kind := Some(c));
        } else {
          status := Error;
        }
        return;
      }
      if InHead(stage) {
        HeadStep(c);
      } else if InNodes(stage) {
        NodesStep(c);
      } else if stage in {StartTime, EndTime, Bitrate} {
        NumbersStep(c);
      } else {
        ContactsStep(c);
      }
      if status == Done {
        sent := sent + [command];
      }
    }

    /** `config_parser_read` */
    method Read(buffer: string)
      requires Valid()
      modifies this
      ensures Valid() && Model() == ReadBuffer(old(Model()), buffer)
    {
      hide ReadByte;
      assert buffer[0..] == buffer;
      for i := 0 to |buffer|
        invariant Valid() && ReadBuffer(Model(), buffer[i..]) == ReadBuffer(old(Model()), buffer)
      {
        assert buffer[i..][0] == buffer[i] && buffer[i..][1..] == buffer[i + 1..];
        Byte(buffer[i]);
        if status == Error {
          Reset();
          return;
        }
      }
    }
  }
}
