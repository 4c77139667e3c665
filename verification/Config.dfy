/** Configuration commands: the printer of python-ud3tn-utils/ud3tn_utils/config.py
    and the parser of components/agents/config_parser.c. */
module Config {
  import opened Octets
  import Eid

  // ---- The printer

  /** A planned contact: DTN times in seconds and octets per second. */
  datatype Planned = Planned(start: nat, end: nat, bitrate: nat)

  datatype Message = Message(kind: char, eid: string, address: string, reachable: seq<string>, contacts: seq<Planned>)

  function Digits(n: nat): (r: string)
    ensures |r| > 0 && forall i :: 0 <= i < |r| ==> Eid.IsDigit(r[i])
  {
    var last := ('0' as int + n % 10) as char;
    if n < 10 then [last] else Digits(n / 10) + [last]
  }

  function PrintEids(eids: seq<string>): string
    requires eids != []
  {
    "(" + eids[0] + ")" + (if |eids| == 1 then "" else "," + PrintEids(eids[1..]))
  }

  function PrintContact(c: Planned): string {
    "{" + Digits(c.start) + "," + Digits(c.end) + "," + Digits(c.bitrate) + "}"
  }

  function PrintContacts(contacts: seq<Planned>): string
    requires contacts != []
  {
    PrintContact(contacts[0]) + (if |contacts| == 1 then "" else "," + PrintContacts(contacts[1..]))
  }

  /** `ConfigMessage.__str__` */
  function Print(m: Message): string {
    [m.kind] + "(" + m.eid + "):(" + m.address + "):"
    + (if m.reachable == [] then "" else "[" + PrintEids(m.reachable) + "]") + ":"
    + (if m.contacts == [] then "" else "[" + PrintContacts(m.contacts) + "]") + ";"
  }

  // ---- The parser

  /** RP_EXPECT_* */
  datatype Stage =
    | CommandType | NodeConfStart | NodeConfEid | ReliabilitySeparator | Reliability | AddressSeparator
    | AddressStart | Address | AddressNodesSeparator
    | NodeListStart | NodeStart | NodeEid | NodeSeparator | NodesContactsSeparator
    | ContactListStart | ContactStart | StartTime | EndTime | Bitrate
    | ContactNodeListStart | ContactNodeStart | ContactNodeEid | ContactNodeSeparator
    | ContactEnd | ContactSeparator | CommandEnd

  datatype Status = Good | Done | Error

  datatype Contact = Contact(fromMs: nat, toMs: nat, bitrate: nat, endpoints: seq<string>)

  datatype Command = Command(kind: Option<char>, eid: Option<string>, address: Option<string>,
                             endpoints: seq<string>, contacts: seq<Contact>)

  /** `digits` is the number being read, `sent` what was handed to the router. */
  datatype Parser = Parser(status: Status, stage: Stage, command: Command, digits: string, sent: seq<Command>)

  const START := Parser(Good, CommandType, Command(None, None, None, [], []), "", [])

  /** Characters `read_eid` accepts. */
  predicate IsUriChar(c: char) {
    '\U{21}' <= c <= '\U{5F}' || 'a' <= c <= 'z' || c == '~'
  }

  /** `strtoull` of a run of digits. */
  function Saturated(digits: string): nat
    requires forall i :: 0 <= i < |digits| ==> Eid.IsDigit(digits[i])
  {
    Min(Eid.Decimal(digits), TWO_64 - 1)
  }

  predicate Wellformed(p: Parser) {
    && (forall i :: 0 <= i < |p.digits| ==> Eid.IsDigit(p.digits[i]))
    && (p.stage == NodeConfEid ==> p.command.eid.Some?)
    && (p.stage == Address ==> p.command.address.Some?)
    && (p.stage == NodeEid ==> p.command.endpoints != [])
    && (InContact(p.stage) ==> p.command.contacts != [])
    && (p.stage == ContactNodeEid ==> p.command.contacts != [] && Last(p.command.contacts).endpoints != [])
  }

  predicate InContact(s: Stage) {
    s.StartTime? || s.EndTime? || s.Bitrate? || s.ContactNodeListStart? || s.ContactNodeStart? || s.ContactNodeEid?
    || s.ContactNodeSeparator?
  }

  function Last<T>(s: seq<T>): T
    requires s != []
  {
    s[|s| - 1]
  }

  function WithLast<T>(s: seq<T>, x: T): seq<T>
    requires s != []
  {
    s[..|s| - 1] + [x]
  }

  function Failed(p: Parser): Parser {
    p.(status := Error)
  }

  function To(p: Parser, stage: Stage): Parser {
    p.(stage := stage)
  }

  function Finish(p: Parser): Parser {
    p.(status := Done)
  }

  function ToContact(p: Parser, c: Contact, stage: Stage): Parser
    requires p.command.contacts != []
  {
    p.(stage := stage, digits := "", command := p.command.(contacts := WithLast(p.command.contacts, c)))
  }

  /** The stages up to the list of reachable endpoints. */
  function HeadByte(p: Parser, c: char): (r: Parser)
    requires Wellformed(p)
    ensures Wellformed(r)
  {
    var cmd := p.command;
    match p.stage
    case NodeConfStart => if c == '(' then p.(stage := NodeConfEid, command := cmd.(eid := Some(""))) else Failed(p)
    case NodeConfEid =>
      if c == ')' then p.(stage := ReliabilitySeparator, command := cmd.(eid := Some(Eid.Normalise(cmd.eid.value))))
      else if IsUriChar(c) then p.(command := cmd.(eid := Some(cmd.eid.value + [c])))
      else Failed(p)
    case ReliabilitySeparator =>
      if c == ',' then p.(stage := Reliability, digits := "")
      else if c == ':' then To(p, AddressStart)
      else if c == ';' then Finish(p)
      else Failed(p)
    case Reliability =>
      if c == ':' || c == ';' then
        var n := Eid.Decimal(p.digits) % TWO_16;
        if n < 100 || n > 1000 then Failed(p).(digits := "")
        else
          var q := p.(stage := AddressStart, digits := "");
          if c == ';' then Finish(q) else q
      else if Eid.IsDigit(c) then p.(digits := p.digits + [c])
      else Failed(p)
    case AddressSeparator =>
      if c == ':' then To(p, AddressStart) else if c == ';' then Finish(p) else Failed(p)
    case AddressStart =>
      if c == '(' then p.(stage := Address, command := cmd.(address := Some("")))
      else if c == ':' then To(p, NodeListStart)
      else if c == ';' then Finish(p)
      else Failed(p)
    case Address =>
      if c == ')' then To(p, AddressNodesSeparator)
      else p.(command := cmd.(address := Some(cmd.address.value + [c])))
    case AddressNodesSeparator =>
      if c == ':' then To(p, NodeListStart) else if c == ';' then Finish(p) else Failed(p)
    case _ => Failed(p)
  }

  /** The list of reachable endpoints. */
  function NodesByte(p: Parser, c: char): (r: Parser)
    requires Wellformed(p)
    ensures Wellformed(r)
  {
    var cmd := p.command;
    match p.stage
    case NodeListStart =>
      if c == '[' then To(p, NodeStart)
      else if c == ':' then To(p, ContactListStart)
      else if c == ';' then Finish(p)
      else Failed(p)
    case NodeStart =>
      if c == '(' then p.(stage := NodeEid, command := cmd.(endpoints := cmd.endpoints + [""]))
      else if c == ']' then To(p, NodesContactsSeparator)
      else Failed(p)
    case NodeEid =>
      var eid := Last(cmd.endpoints);
      if c == ')' then
        p.(stage := NodeSeparator, command := cmd.(endpoints := WithLast(cmd.endpoints, Eid.Normalise(eid))))
      else if IsUriChar(c) then p.(command := cmd.(endpoints := WithLast(cmd.endpoints, eid + [c])))
      else Failed(p)
    case NodeSeparator =>
      if c == ',' then To(p, NodeStart) else if c == ']' then To(p, NodesContactsSeparator) else Failed(p)
    case NodesContactsSeparator =>
      if c == ':' then To(p, ContactListStart) else if c == ';' then Finish(p) else Failed(p)
    case _ => Failed(p)
  }

  /** The numbers of a contact. */
  function NumbersByte(p: Parser, c: char): (r: Parser)
    requires Wellformed(p) && p.stage in {StartTime, EndTime, Bitrate}
    ensures Wellformed(r)
  {
    var contact := Last(p.command.contacts);
    if Eid.IsDigit(c) then p.(digits := p.digits + [c])
    else if c == ',' && p.stage != Bitrate then
      var n := Saturated(p.digits);
      if n >= (TWO_64 - 1) / 1000 then
        Failed(ToContact(p, if p.stage == StartTime then contact.(fromMs := n) else contact.(toMs := n), p.stage))
      else if p.stage == StartTime then ToContact(p, contact.(fromMs := n * 1000), EndTime)
      else ToContact(p, contact.(toMs := n * 1000), Bitrate)
    else if (c == ',' || c == '}') && p.stage == Bitrate then
      ToContact(p, contact.(bitrate := Saturated(p.digits) % TWO_32),
                if c == ',' then ContactNodeListStart else ContactSeparator)
    else Failed(p)
  }

  /** The list of contacts. */
  function ContactsByte(p: Parser, c: char): (r: Parser)
    requires Wellformed(p)
    ensures Wellformed(r)
  {
    var cmd := p.command;
    match p.stage
    case ContactListStart => if c == '[' then To(p, ContactStart) else if c == ';' then Finish(p) else Failed(p)
    case ContactStart =>
      if c == '{' then
        p.(stage := StartTime, digits := "", command := cmd.(contacts := cmd.contacts + [Contact(0, 0, 0, [])]))
      else if c == ']' then To(p, CommandEnd)
      else Failed(p)
    case ContactNodeListStart => if c == '[' then To(p, ContactNodeStart) else Failed(p)
    case ContactNodeStart =>
      var contact := Last(cmd.contacts);
      if c == '(' then ToContact(p, contact.(endpoints := contact.endpoints + [""]), ContactNodeEid)
      else if c == ']' then To(p, ContactEnd)
      else Failed(p)
    case ContactNodeEid =>
      var contact := Last(cmd.contacts);
      var eid := Last(contact.endpoints);
      if c == ')' then
        ToContact(p, contact.(endpoints := WithLast(contact.endpoints, Eid.Normalise(eid))), ContactNodeSeparator)
      else if IsUriChar(c) then
        ToContact(p, contact.(endpoints := WithLast(contact.endpoints, eid + [c])), ContactNodeEid)
      else Failed(p)
    case ContactNodeSeparator =>
      if c == ',' then To(p, ContactNodeStart) else if c == ']' then To(p, ContactEnd) else Failed(p)
    case ContactEnd => if c == '}' then To(p, ContactSeparator) else Failed(p)
    case ContactSeparator => if c == ',' then To(p, ContactStart) else if c == ']' then To(p, CommandEnd) else Failed(p)
    case CommandEnd => if c == ';' then Finish(p) else Failed(p)
    case _ => Failed(p)
  }

  predicate InHead(s: Stage) {
    s.NodeConfStart? || s.NodeConfEid? || s.ReliabilitySeparator? || s.Reliability? || s.AddressSeparator?
    || s.AddressStart? || s.Address? || s.AddressNodesSeparator?
  }

  predicate InNodes(s: Stage) {
    s.NodeListStart? || s.NodeStart? || s.NodeEid? || s.NodeSeparator? || s.NodesContactsSeparator?
  }

  /** `read_command` */
  function CommandByte(p: Parser, c: char): (r: Parser)
    requires Wellformed(p)
    ensures Wellformed(r)
  {
    if InHead(p.stage) then HeadByte(p, c)
    else if InNodes(p.stage) then NodesByte(p, c)
    else if p.stage in {StartTime, EndTime, Bitrate} then NumbersByte(p, c)
    else ContactsByte(p, c)
  }

  /** `config_parser_read_byte` */
  function ReadByte(p: Parser, c: char): (r: Parser)
    requires Wellformed(p)
    ensures Wellformed(r)
  {
    if p.status != Good then p
    else if p.stage == CommandType then
      if '1' <= c <= '4' then p.(stage := NodeConfStart, command := p.command.(kind := Some(c)))
      else Failed(p).(stage := NodeConfStart)
    else
      var q := CommandByte(p, c);
      if q.status == Done then q.(sent := q.sent + [q.command]) else q
  }
}
