/** The C parser of configuration commands inverts the Python printer. */
module ConfigRoundTrip {
  import opened Octets
  import opened Config
  import Eid

  function Run(p: Parser, s: string): (r: Parser)
    requires Wellformed(p)
    ensures Wellformed(r)
    decreases |s|
  {
    if s == "" then p else Run(ReadByte(p, s[0]), s[1..])
  }

  lemma {:induction false} RunSplit(p: Parser, a: string, b: string)
    requires Wellformed(p)
    ensures Run(p, a + b) == Run(Run(p, a), b)
    decreases |a|
  {
    hide ReadByte;
    if a == "" {
      assert a + b == b;
    } else {
      assert (a + b)[0] == a[0] && (a + b)[1..] == a[1..] + b;
      RunSplit(ReadByte(p, a[0]), a[1..], b);
    }
  }

  lemma RunOne(p: Parser, c: char)
    requires Wellformed(p)
    ensures Run(p, [c]) == ReadByte(p, c)
  {
    hide ReadByte;
    assert [c][1..] == "";
  }

  // ---- What can be printed

  /** Characters of an endpoint ID both sides allow. */
  predicate IsEidText(s: string) {
    forall i :: 0 <= i < |s| ==> IsUriChar(s[i]) && s[i] != '(' && s[i] != ')'
  }

  predicate IsAddressText(s: string) {
    forall i :: 0 <= i < |s| ==> s[i] != '(' && s[i] != ')' && '\U{0}' < s[i] <= '\U{7F}'
  }

  /** Times the parser accepts. */
  predicate TimesInRange(c: Planned) {
    c.start < (TWO_64 - 1) / 1000 && c.end < (TWO_64 - 1) / 1000
  }

  predicate TextsPermitted(m: Message) {
    && '1' <= m.kind <= '4'
    && IsEidText(m.eid) && IsAddressText(m.address)
    && forall i :: 0 <= i < |m.reachable| ==> IsEidText(m.reachable[i])
  }

  predicate Permitted(m: Message) {
    TextsPermitted(m) && forall i :: 0 <= i < |m.contacts| ==> TimesInRange(m.contacts[i])
  }

  /** The command the router gets. */
  function Normalised(eids: seq<string>): (r: seq<string>)
    ensures |r| == |eids| && forall i :: 0 <= i < |r| ==> r[i] == Eid.Normalise(eids[i])
  {
    seq(|eids|, i requires 0 <= i < |eids| => Eid.Normalise(eids[i]))
  }

  /** A rate as it is stored, in 32 bits. */
  function Rate(n: nat): nat {
    Min(n, TWO_64 - 1) % TWO_32
  }

  function Timed(c: Planned): Contact {
    Contact(c.start * 1000, c.end * 1000, Rate(c.bitrate), [])
  }

  function TimedAll(contacts: seq<Planned>): (r: seq<Contact>)
    ensures |r| == |contacts| && forall i :: 0 <= i < |r| ==> r[i] == Timed(contacts[i])
  {
    seq(|contacts|, i requires 0 <= i < |contacts| => Timed(contacts[i]))
  }

  function Expected(m: Message): Command {
    Command(Some(m.kind), Some(Eid.Normalise(m.eid)), Some(m.address), Normalised(m.reachable), TimedAll(m.contacts))
  }

  // ---- Texts

  lemma NodeEidByte(p: Parser, c: char)
    requires Wellformed(p) && p.status == Good && p.stage == NodeConfEid && IsUriChar(c) && c != ')'
    ensures ReadByte(p, c) == p.(command := p.command.(eid := Some(p.command.eid.value + [c])))
  {
    hide NodesByte, NumbersByte, ContactsByte, Eid.Normalise;
  }

  lemma AddressByte(p: Parser, c: char)
    requires Wellformed(p) && p.status == Good && p.stage == Address && c != ')'
    ensures ReadByte(p, c) == p.(command := p.command.(address := Some(p.command.address.value + [c])))
  {
    hide NodesByte, NumbersByte, ContactsByte, Eid.Normalise;
  }

  lemma EndpointByte(p: Parser, c: char)
    requires Wellformed(p) && p.status == Good && p.stage == NodeEid && IsUriChar(c) && c != ')'
    ensures ReadByte(p, c) == WithEndpoint(p, Last(p.command.endpoints) + [c])
  {
    hide HeadByte, NumbersByte, ContactsByte, Eid.Normalise;
  }

  lemma DigitByte(p: Parser, c: char)
    requires Wellformed(p) && p.status == Good && p.stage in {StartTime, EndTime, Bitrate} && Eid.IsDigit(c)
    ensures ReadByte(p, c) == p.(digits := p.digits + [c])
  {
    hide HeadByte, NodesByte, ContactsByte;
  }

  lemma {:induction false} NodeEidRead(p: Parser, text: string)
    requires Wellformed(p) && p.status == Good && p.stage == NodeConfEid && IsEidText(text)
    ensures Run(p, text) == p.(command := p.command.(eid := Some(p.command.eid.value + text)))
    decreases |text|
  {
    hide ReadByte;
    if text == "" {
      assert p.command.eid.value + text == p.command.eid.value;
    } else {
      var q := p.(command := p.command.(eid := Some(p.command.eid.value + [text[0]])));
      NodeEidByte(p, text[0]);
      NodeEidRead(q, text[1..]);
      assert p.command.eid.value + [text[0]] + text[1..] == p.command.eid.value + text;
    }
  }

  lemma {:induction false} AddressRead(p: Parser, text: string)
    requires Wellformed(p) && p.status == Good && p.stage == Address && IsAddressText(text)
    ensures Run(p, text) == p.(command := p.command.(address := Some(p.command.address.value + text)))
    decreases |text|
  {
    hide ReadByte;
    if text == "" {
      assert p.command.address.value + text == p.command.address.value;
    } else {
      var q := p.(command := p.command.(address := Some(p.command.address.value + [text[0]])));
      AddressByte(p, text[0]);
      AddressRead(q, text[1..]);
      assert p.command.address.value + [text[0]] + text[1..] == p.command.address.value + text;
    }
  }

  function WithEndpoint(p: Parser, text: string): Parser
    requires p.command.endpoints != []
  {
    p.(command := p.command.(endpoints := WithLast(p.command.endpoints, text)))
  }

  lemma {:induction false} EndpointRead(p: Parser, text: string)
    requires Wellformed(p) && p.status == Good && p.stage == NodeEid && IsEidText(text)
    ensures Run(p, text) == WithEndpoint(p, Last(p.command.endpoints) + text)
    decreases |text|
  {
    hide ReadByte;
    var eids := p.command.endpoints;
    if text == "" {
      assert Last(eids) + text == Last(eids) && WithLast(eids, Last(eids)) == eids;
    } else {
      var q := WithEndpoint(p, Last(eids) + [text[0]]);
      EndpointByte(p, text[0]);
      EndpointRead(q, text[1..]);
      assert Last(eids) + [text[0]] + text[1..] == Last(eids) + text;
      assert WithLast(WithLast(eids, Last(eids) + [text[0]]), Last(eids) + text) == WithLast(eids, Last(eids) + text);
    }
  }

  lemma {:induction false} DigitsRead(p: Parser, text: string)
    requires Wellformed(p) && p.status == Good && p.stage in {StartTime, EndTime, Bitrate}
    requires forall i :: 0 <= i < |text| ==> Eid.IsDigit(text[i])
    ensures Run(p, text) == p.(digits := p.digits + text)
    decreases |text|
  {
    hide ReadByte;
    if text == "" {
      assert p.digits + text == p.digits;
    } else {
      var q := p.(digits := p.digits + [text[0]]);
      DigitByte(p, text[0]);
      DigitsRead(q, text[1..]);
      assert p.digits + [text[0]] + text[1..] == p.digits + text;
    }
  }

  /** A printed number is read back. */
  lemma {:induction false} DigitsMean(n: nat)
    ensures Eid.Decimal(Digits(n)) == n
  {
    if n >= 10 {
      DigitsMean(n / 10);
      var d := Digits(n);
      assert d[..|d| - 1] == Digits(n / 10);
    } else {
      assert Digits(n)[..0] == "";
    }
  }

  // ---- Parts of a command

  lemma Run3(p: Parser, a: string, b: string, c: string)
    requires Wellformed(p)
    ensures Run(p, a + b + c) == Run(Run(Run(p, a), b), c)
  {
    hide Run;
    RunSplit(p, a + b, c);
    RunSplit(p, a, b);
  }

  lemma NodePartRead(p: Parser, eid: string)
    requires Wellformed(p) && p.status == Good && p.stage == NodeConfStart && IsEidText(eid)
    ensures Run(p, "(" + eid + ")")
            == p.(stage := ReliabilitySeparator, command := p.command.(eid := Some(Eid.Normalise(eid))))
  {
    hide Run, NodesByte, NumbersByte, ContactsByte, Eid.Normalise;
    var q := p.(stage := NodeConfEid, command := p.command.(eid := Some("")));
    Run3(p, "(", eid, ")");
    RunOne(p, '(');
    NodeEidRead(q, eid);
    assert "" + eid == eid;
    RunOne(q.(command := q.command.(eid := Some(eid))), ')');
  }

  lemma AddressPartRead(p: Parser, address: string)
    requires Wellformed(p) && p.status == Good && p.stage == AddressStart && IsAddressText(address)
    ensures Run(p, "(" + address + ")")
            == p.(stage := AddressNodesSeparator, command := p.command.(address := Some(address)))
  {
    hide Run, NodesByte, NumbersByte, ContactsByte, Eid.Normalise;
    var q := p.(stage := Address, command := p.command.(address := Some("")));
    Run3(p, "(", address, ")");
    RunOne(p, '(');
    AddressRead(q, address);
    assert "" + address == address;
    RunOne(q.(command := q.command.(address := Some(address))), ')');
  }

  function Reaching(p: Parser, eids: seq<string>, stage: Stage): Parser {
    p.(stage := stage, command := p.command.(endpoints := p.command.endpoints + eids))
  }

  lemma EndpointPartRead(p: Parser, eid: string)
    requires Wellformed(p) && p.status == Good && p.stage == NodeStart && IsEidText(eid)
    ensures Run(p, "(" + eid + ")") == Reaching(p, [Eid.Normalise(eid)], NodeSeparator)
  {
    hide Run, HeadByte, NumbersByte, ContactsByte, Eid.Normalise;
    var q := Reaching(p, [""], NodeEid);
    Run3(p, "(", eid, ")");
    RunOne(p, '(');
    EndpointRead(q, eid);
    assert "" + eid == eid;
    assert WithEndpoint(q, eid) == Reaching(p, [eid], NodeEid);
    RunOne(Reaching(p, [eid], NodeEid), ')');
    assert WithLast(p.command.endpoints + [eid], Eid.Normalise(eid)) == p.command.endpoints + [Eid.Normalise(eid)];
  }

  lemma NodeCommaRead(p: Parser)
    requires Wellformed(p) && p.status == Good && p.stage == NodeSeparator
    ensures Run(p, ",") == To(p, NodeStart) && Run(p, "]") == To(p, NodesContactsSeparator)
  {
    hide Run, ReadByte;
    RunOne(p, ',');
    RunOne(p, ']');
    NodeCommaByte(p);
  }

  lemma NodeCommaByte(p: Parser)
    requires Wellformed(p) && p.status == Good && p.stage == NodeSeparator
    ensures ReadByte(p, ',') == To(p, NodeStart) && ReadByte(p, ']') == To(p, NodesContactsSeparator)
  {
    hide HeadByte, NumbersByte, ContactsByte;
  }

  lemma EidsPrinted(eids: seq<string>)
    requires |eids| > 1
    ensures PrintEids(eids) == "(" + eids[0] + ")" + "," + PrintEids(eids[1..])
  {
  }

  lemma ReachingMore(p: Parser, e: string, eids: seq<string>)
    requires eids != [] && e == Eid.Normalise(eids[0])
    ensures Normalised(eids) == [e] + Normalised(eids[1..])
    ensures Reaching(To(Reaching(p, [e], NodeSeparator), NodeStart), Normalised(eids[1..]), NodeSeparator)
            == Reaching(p, Normalised(eids), NodeSeparator)
  {
    hide Eid.Normalise;
    assert Normalised(eids) == [e] + Normalised(eids[1..]);
    assert p.command.endpoints + [e] + Normalised(eids[1..]) == p.command.endpoints + Normalised(eids);
  }

  lemma ReachingReady(p: Parser, eids: seq<string>)
    requires Wellformed(p) && p.status == Good
    ensures var q := Reaching(p, eids, NodeSeparator);
      && Wellformed(q) && q.status == Good && q.stage == NodeSeparator
      && Wellformed(To(q, NodeStart)) && To(q, NodeStart).status == Good && To(q, NodeStart).stage == NodeStart
  {
  }

  /** Any number of reachable endpoints, in order. */
  lemma {:induction false} EndpointsRead(p: Parser, eids: seq<string>)
    requires Wellformed(p) && p.status == Good && p.stage == NodeStart
    requires eids != [] && forall i :: 0 <= i < |eids| ==> IsEidText(eids[i])
    ensures Run(p, PrintEids(eids)) == Reaching(p, Normalised(eids), NodeSeparator)
    decreases |eids|
  {
    hide Run, Eid.Normalise, IsEidText, Reaching, Normalised, PrintEids, Wellformed, To;
    var e := Eid.Normalise(eids[0]);
    var q := Reaching(p, [e], NodeSeparator);
    EndpointPartRead(p, eids[0]);
    ReachingReady(p, [e]);
    if |eids| == 1 {
      OneEid(eids);
    } else {
      var others := eids[1..];
      EidsPrinted(eids);
      Run3(p, "(" + eids[0] + ")", ",", PrintEids(others));
      NodeCommaRead(q);
      EndpointsRead(To(q, NodeStart), others);
      ReachingMore(p, e, eids);
    }
  }

  lemma OneEid(eids: seq<string>)
    requires |eids| == 1
    ensures PrintEids(eids) == "(" + eids[0] + ")" && Normalised(eids) == [Eid.Normalise(eids[0])]
  {
    hide Eid.Normalise;
    assert "(" + eids[0] + ")" + "" == "(" + eids[0] + ")";
  }

  /** A number up to its separator. */
  lemma NumberRead(p: Parser, n: nat, c: char)
    requires Wellformed(p) && p.status == Good && p.stage in {StartTime, EndTime, Bitrate} && p.digits == ""
    ensures Wellformed(p.(digits := Digits(n)))
    ensures Run(p, Digits(n) + [c]) == ReadByte(p.(digits := Digits(n)), c)
  {
    hide Run, ReadByte, Digits;
    RunSplit(p, Digits(n), [c]);
    DigitsRead(p, Digits(n));
    assert "" + Digits(n) == Digits(n);
    RunOne(p.(digits := Digits(n)), c);
  }

  lemma SaturatedDigits(n: nat)
    ensures Saturated(Digits(n)) == Min(n, TWO_64 - 1)
  {
    hide Digits, Eid.Decimal;
    DigitsMean(n);
  }

  /** The end of a number that is not the end of the command. */
  lemma NumberEnds(p: Parser, c: char)
    requires Wellformed(p) && p.status == Good && p.stage in {StartTime, EndTime, Bitrate}
    ensures NumbersByte(p, c).status != Done && ReadByte(p, c) == NumbersByte(p, c)
  {
    hide HeadByte, NodesByte, ContactsByte, Saturated, WithLast;
  }

  lemma TimeEnds(p: Parser, n: nat)
    requires Wellformed(p) && p.status == Good && p.stage in {StartTime, EndTime} && n < (TWO_64 - 1) / 1000
    requires p.digits == Digits(n)
    ensures var c := Last(p.command.contacts);
      ReadByte(p, ',') == if p.stage == StartTime then ToContact(p, c.(fromMs := n * 1000), EndTime)
                          else ToContact(p, c.(toMs := n * 1000), Bitrate)
  {
    hide ReadByte, Digits, Saturated, ToContact;
    SaturatedDigits(n);
    NumberEnds(p, ',');
  }

  lemma BitrateEnds(p: Parser, n: nat)
    requires Wellformed(p) && p.status == Good && p.stage == Bitrate && p.digits == Digits(n)
    ensures ReadByte(p, '}') == ToContact(p, Last(p.command.contacts).(bitrate := Rate(n)), ContactSeparator)
  {
    hide ReadByte, Digits, Saturated, ToContact;
    SaturatedDigits(n);
    NumberEnds(p, '}');
  }

  function Planning(p: Parser, contacts: seq<Contact>, stage: Stage): Parser {
    p.(stage := stage, command := p.command.(contacts := p.command.contacts + contacts))
  }

  lemma ContactBegins(p: Parser)
    requires Wellformed(p) && p.status == Good && p.stage == ContactStart && p.digits == ""
    ensures Run(p, "{") == Planning(p, [Contact(0, 0, 0, [])], StartTime)
  {
    hide Run, HeadByte, NodesByte, NumbersByte;
    RunOne(p, '{');
  }

  lemma Replaced(p: Parser, x: Contact, y: Contact, from: Stage, to: Stage, digits: string)
    requires p.digits == ""
    ensures Last(Planning(p, [x], from).command.contacts) == x
    ensures ToContact(Planning(p, [x], from).(digits := digits), y, to) == Planning(p, [y], to)
  {
    assert WithLast(p.command.contacts + [x], y) == p.command.contacts + [y];
  }

  lemma ContactPartRead(p: Parser, c: Planned)
    requires Wellformed(p) && p.status == Good && p.stage == ContactStart && p.digits == "" && TimesInRange(c)
    ensures Run(p, PrintContact(c)) == Planning(p, [Timed(c)], ContactSeparator)
  {
    hide Run, ReadByte, Digits, Planning, PrintContact, ToContact;
    var c0, c1 := Contact(0, 0, 0, []), Contact(c.start * 1000, 0, 0, []);
    var c2 := Contact(c.start * 1000, c.end * 1000, 0, []);
    var p1, p2, p3 := Planning(p, [c0], StartTime), Planning(p, [c1], EndTime), Planning(p, [c2], Bitrate);
    PlanningKeeps(p, c0, StartTime);
    PlanningKeeps(p, c1, EndTime);
    PlanningKeeps(p, c2, Bitrate);
    Replaced(p, c0, c1, StartTime, EndTime, Digits(c.start));
    Replaced(p, c1, c2, EndTime, Bitrate, Digits(c.end));
    Replaced(p, c2, Timed(c), Bitrate, ContactSeparator, Digits(c.bitrate));
    var a, b, d := Digits(c.start) + ",", Digits(c.end) + ",", Digits(c.bitrate) + "}";
    ContactPrinted(c);
    RunSplit(p, "{" + a + b, d);
    Run3(p, "{", a, b);
    ContactBegins(p);
    NumberRead(p1, c.start, ',');
    TimeEnds(p1.(digits := Digits(c.start)), c.start);
    NumberRead(p2, c.end, ',');
    TimeEnds(p2.(digits := Digits(c.end)), c.end);
    NumberRead(p3, c.bitrate, '}');
    BitrateEnds(p3.(digits := Digits(c.bitrate)), c.bitrate);
  }

  lemma ContactPrinted(c: Planned)
    ensures PrintContact(c) == "{" + (Digits(c.start) + ",") + (Digits(c.end) + ",") + (Digits(c.bitrate) + "}")
  {
    hide Digits;
  }

  lemma ContactsPrinted(contacts: seq<Planned>)
    requires |contacts| > 1
    ensures PrintContacts(contacts) == PrintContact(contacts[0]) + "," + PrintContacts(contacts[1..])
  {
    hide PrintContact;
  }

  lemma PlanningKeeps(p: Parser, c: Contact, stage: Stage)
    requires Wellformed(p) && p.status == Good && p.digits == "" && stage in {StartTime, EndTime, Bitrate}
    ensures var q := Planning(p, [c], stage);
      Wellformed(q) && q.status == Good && q.stage == stage && q.digits == "" && q.command.contacts != []
  {
  }

  lemma ContactCommaRead(p: Parser)
    requires Wellformed(p) && p.status == Good && p.stage == ContactSeparator
    ensures Run(p, ",") == To(p, ContactStart) && Run(p, "]") == To(p, CommandEnd)
  {
    hide Run, ReadByte;
    RunOne(p, ',');
    RunOne(p, ']');
    ContactCommaByte(p);
  }

  lemma ContactCommaByte(p: Parser)
    requires Wellformed(p) && p.status == Good && p.stage == ContactSeparator
    ensures ReadByte(p, ',') == To(p, ContactStart) && ReadByte(p, ']') == To(p, CommandEnd)
  {
    hide HeadByte, NodesByte, NumbersByte;
  }

  lemma PlanningMore(p: Parser, contacts: seq<Planned>)
    requires contacts != []
    ensures TimedAll(contacts) == [Timed(contacts[0])] + TimedAll(contacts[1..])
    ensures Planning(To(Planning(p, [Timed(contacts[0])], ContactSeparator), ContactStart), TimedAll(contacts[1..]),
                     ContactSeparator)
            == Planning(p, TimedAll(contacts), ContactSeparator)
  {
    hide Timed;
    var c := Timed(contacts[0]);
    assert TimedAll(contacts) == [c] + TimedAll(contacts[1..]);
    assert p.command.contacts + [c] + TimedAll(contacts[1..]) == p.command.contacts + TimedAll(contacts);
  }

  lemma PlanningReady(p: Parser, contacts: seq<Contact>)
    requires Wellformed(p) && p.status == Good && p.digits == ""
    ensures var q := Planning(p, contacts, ContactSeparator);
      && Wellformed(q) && q.status == Good && q.stage == ContactSeparator
      && Wellformed(To(q, ContactStart)) && To(q, ContactStart).status == Good
      && To(q, ContactStart).stage == ContactStart
      && To(q, ContactStart).digits == ""
  {
  }

  /** Any number of contacts, in order. */
  lemma {:induction false} ContactsRead(p: Parser, contacts: seq<Planned>)
    requires Wellformed(p) && p.status == Good && p.stage == ContactStart && p.digits == ""
    requires contacts != [] && forall i :: 0 <= i < |contacts| ==> TimesInRange(contacts[i])
    ensures Run(p, PrintContacts(contacts)) == Planning(p, TimedAll(contacts), ContactSeparator)
    decreases |contacts|
  {
    hide Run, PrintContact, TimesInRange, Timed, Planning, TimedAll, PrintContacts, Wellformed, To;
    var c := Timed(contacts[0]);
    var q := Planning(p, [c], ContactSeparator);
    ContactPartRead(p, contacts[0]);
    PlanningReady(p, [c]);
    if |contacts| == 1 {
      OneContact(contacts);
    } else {
      var others := contacts[1..];
      ContactsPrinted(contacts);
      Run3(p, PrintContact(contacts[0]), ",", PrintContacts(others));
      ContactCommaRead(q);
      ContactsRead(To(q, ContactStart), others);
      PlanningMore(p, contacts);
    }
  }

  lemma OneContact(contacts: seq<Planned>)
    requires |contacts| == 1
    ensures PrintContacts(contacts) == PrintContact(contacts[0]) && TimedAll(contacts) == [Timed(contacts[0])]
  {
    hide PrintContact, Timed;
    assert PrintContact(contacts[0]) + "" == PrintContact(contacts[0]);
  }

  // ---- Whole commands

  function Head(m: Message): Parser {
    Parser(Good, NodeListStart, Command(Some(m.kind), Some(Eid.Normalise(m.eid)), Some(m.address), [], []), "", [])
  }

  lemma SeparatorRead(p: Parser)
    requires Wellformed(p) && p.status == Good
    ensures p.stage == ReliabilitySeparator ==> Run(p, ":") == To(p, AddressStart)
    ensures p.stage == AddressNodesSeparator ==> Run(p, ":") == To(p, NodeListStart)
  {
    hide Run, NodesByte, NumbersByte, ContactsByte, Eid.Normalise;
    RunOne(p, ':');
  }

  lemma KindRead(kind: char)
    requires '1' <= kind <= '4'
    ensures Run(START, [kind]) == START.(stage := NodeConfStart, command := START.command.(kind := Some(kind)))
  {
    hide Run, CommandByte;
    RunOne(START, kind);
  }

  lemma HeadRead(m: Message)
    requires '1' <= m.kind <= '4' && IsEidText(m.eid) && IsAddressText(m.address)
    ensures Run(START, [m.kind] + ("(" + m.eid + ")") + ":" + ("(" + m.address + ")") + ":") == Head(m)
  {
    hide Run, Eid.Normalise, IsEidText, IsAddressText;
    var eid, address := "(" + m.eid + ")", "(" + m.address + ")";
    Run3(START, [m.kind] + eid + ":", address, ":");
    Run3(START, [m.kind], eid, ":");
    KindRead(m.kind);
    var p := START.(stage := NodeConfStart, command := START.command.(kind := Some(m.kind)));
    NodePartRead(p, m.eid);
    var q := p.(stage := ReliabilitySeparator, command := p.command.(eid := Some(Eid.Normalise(m.eid))));
    SeparatorRead(q);
    AddressPartRead(To(q, AddressStart), m.address);
    SeparatorRead(q.(stage := AddressNodesSeparator, command := q.command.(address := Some(m.address))));
  }

  lemma NodesBytesRead(p: Parser)
    requires Wellformed(p) && p.status == Good
    ensures p.stage == NodeListStart ==> Run(p, ":") == To(p, ContactListStart) && Run(p, "[") == To(p, NodeStart)
    ensures p.stage == NodesContactsSeparator ==> Run(p, ":") == To(p, ContactListStart)
  {
    hide Run, HeadByte, NumbersByte, ContactsByte, Eid.Normalise;
    RunOne(p, ':');
    RunOne(p, '[');
  }

  lemma NodesPartRead(p: Parser, eids: seq<string>)
    requires Wellformed(p) && p.status == Good && p.stage == NodeListStart
    requires forall i :: 0 <= i < |eids| ==> IsEidText(eids[i])
    ensures Run(p, (if eids == [] then "" else "[" + PrintEids(eids) + "]") + ":")
            == Reaching(p, Normalised(eids), ContactListStart)
  {
    hide Run, IsEidText, PrintEids;
    NodesBytesRead(p);
    if eids == [] {
      assert "" + ":" == ":" && p.command.endpoints + [] == p.command.endpoints;
    } else {
      var list := PrintEids(eids);
      RunSplit(p, "[" + list + "]", ":");
      Run3(p, "[", list, "]");
      EndpointsRead(To(p, NodeStart), eids);
      var q := Reaching(p, Normalised(eids), NodeSeparator);
      NodeCommaRead(q);
      NodesBytesRead(To(q, NodesContactsSeparator));
    }
  }

  lemma CommandBytesRead(p: Parser)
    requires Wellformed(p) && p.status == Good
    ensures p.stage == ContactListStart ==> Run(p, "[") == To(p, ContactStart)
    ensures p.stage == ContactListStart || p.stage == CommandEnd ==>
              Run(p, ";") == p.(status := Done, sent := p.sent + [p.command])
  {
    hide Run, HeadByte, NodesByte, NumbersByte, Eid.Normalise;
    RunOne(p, '[');
    RunOne(p, ';');
  }

  lemma ContactsPartRead(p: Parser, contacts: seq<Planned>)
    requires Wellformed(p) && p.status == Good && p.stage == ContactListStart && p.digits == ""
    requires p.command.contacts == []
    requires forall i :: 0 <= i < |contacts| ==> TimesInRange(contacts[i])
    ensures var command := p.command.(contacts := TimedAll(contacts));
      var r := Run(p, (if contacts == [] then "" else "[" + PrintContacts(contacts) + "]") + ";");
      r.status == Done && r.sent == p.sent + [command] && r.command == command
  {
    hide Run, TimesInRange, PrintContacts;
    CommandBytesRead(p);
    if contacts == [] {
      assert "" + ";" == ";" && TimedAll(contacts) == [];
    } else {
      var list := PrintContacts(contacts);
      RunSplit(p, "[" + list + "]", ";");
      Run3(p, "[", list, "]");
      ContactsRead(To(p, ContactStart), contacts);
      assert [] + TimedAll(contacts) == TimedAll(contacts);
      var q := Planning(p, TimedAll(contacts), ContactSeparator);
      ContactCommaRead(q);
      CommandBytesRead(To(q, CommandEnd));
    }
  }

  lemma Printed(m: Message)
    ensures Print(m) == ([m.kind] + ("(" + m.eid + ")") + ":" + ("(" + m.address + ")") + ":")
      + ((if m.reachable == [] then "" else "[" + PrintEids(m.reachable) + "]") + ":")
      + ((if m.contacts == [] then "" else "[" + PrintContacts(m.contacts) + "]") + ";")
  {
    hide PrintEids, PrintContacts;
    var reachable := if m.reachable == [] then "" else "[" + PrintEids(m.reachable) + "]";
    var contacts := if m.contacts == [] then "" else "[" + PrintContacts(m.contacts) + "]";
    var head := [m.kind] + "(" + m.eid + "):(" + m.address + "):";
    assert head == [m.kind] + ("(" + m.eid + ")") + ":" + ("(" + m.address + ")") + ":";
    assert head + reachable + ":" + contacts + ";" == head + (reachable + ":") + (contacts + ";");
  }

  /** Every printed message is parsed into exactly one command: the same type and
      address, the lists in order, times in milliseconds, rates in 32 bits and
      endpoint IDs reduced to node IDs. */
  lemma PrintedIsParsed(m: Message)
    requires Permitted(m)
    ensures Run(START, Print(m)).status == Done && Run(START, Print(m)).sent == [Expected(m)]
  {
    hide Run, Print, PrintEids, PrintContacts, Eid.Normalise, TimesInRange, IsEidText, IsAddressText;
    var reachable := (if m.reachable == [] then "" else "[" + PrintEids(m.reachable) + "]") + ":";
    var contacts := (if m.contacts == [] then "" else "[" + PrintContacts(m.contacts) + "]") + ";";
    Printed(m);
    Run3(START, [m.kind] + ("(" + m.eid + ")") + ":" + ("(" + m.address + ")") + ":", reachable, contacts);
    HeadRead(m);
    NodesPartRead(Head(m), m.reachable);
    assert [] + Normalised(m.reachable) == Normalised(m.reachable);
    ContactsPartRead(Reaching(Head(m), Normalised(m.reachable), ContactListStart), m.contacts);
    assert [] + [Expected(m)] == [Expected(m)];
  }

  /** What follows a complete command is ignored. */
  lemma {:induction false} DoneIgnores(p: Parser, s: string)
    requires Wellformed(p) && p.status != Good
    ensures Run(p, s) == p
    decreases |s|
  {
    if s != "" {
      DoneIgnores(p, s[1..]);
    }
  }

  // ---- When the message itself comes back

  /** A time of UINT64_MAX / 1000 seconds or more is refused. */
  lemma LateTimeRefused(p: Parser, n: nat)
    requires Wellformed(p) && p.status == Good && p.stage in {StartTime, EndTime} && n >= (TWO_64 - 1) / 1000
    requires p.digits == Digits(n)
    ensures ReadByte(p, ',').status == Error && ReadByte(p, ',').sent == p.sent
  {
    hide ReadByte, Digits, Saturated;
    SaturatedDigits(n);
    NumberEnds(p, ',');
  }

  /** Nothing is sent any more. */
  predicate Refused(p: Parser, r: Parser) {
    r.status == Error && r.sent == p.sent
  }

  lemma RefusedStays(p: Parser, q: Parser, s: string)
    requires Wellformed(q) && Refused(p, q)
    ensures Refused(p, Run(q, s))
  {
    hide Run;
    DoneIgnores(q, s);
  }

  lemma RefusedOnward(p: Parser, s: string, t: string)
    requires Wellformed(p) && Refused(p, Run(p, s))
    ensures Refused(p, Run(p, s + t))
  {
    hide Run, Refused;
    RunSplit(p, s, t);
    RefusedStays(p, Run(p, s), t);
  }

  /** A contact begins with its start time. */
  lemma StartRead(p: Parser, n: nat) returns (q: Parser)
    requires Wellformed(p) && p.status == Good && p.stage == ContactStart && p.digits == ""
    ensures Wellformed(q) && q.status == Good && q.stage == StartTime && q.digits == Digits(n) && q.sent == p.sent
    ensures Last(q.command.contacts) == Contact(0, 0, 0, [])
    ensures Run(p, "{" + (Digits(n) + ",")) == ReadByte(q, ',')
    ensures q == Planning(p, [Contact(0, 0, 0, [])], StartTime).(digits := Digits(n))
  {
    hide Run, ReadByte, Digits;
    var p1 := Planning(p, [Contact(0, 0, 0, [])], StartTime);
    PlanningKeeps(p, Contact(0, 0, 0, []), StartTime);
    RunSplit(p, "{", Digits(n) + ",");
    ContactBegins(p);
    NumberRead(p1, n, ',');
    q := p1.(digits := Digits(n));
  }

  lemma LateStartRefused(p: Parser, c: Planned)
    requires Wellformed(p) && p.status == Good && p.stage == ContactStart && p.digits == ""
    requires c.start >= (TWO_64 - 1) / 1000
    ensures Refused(p, Run(p, "{" + (Digits(c.start) + ",")))
  {
    hide Run, ReadByte, Digits, Planning, Wellformed;
    var q := StartRead(p, c.start);
    LateTimeRefused(q, c.start);
  }

  lemma LateEndRefused(p: Parser, c: Planned)
    requires Wellformed(p) && p.status == Good && p.stage == ContactStart && p.digits == ""
    requires c.start < (TWO_64 - 1) / 1000 <= c.end
    ensures Refused(p, Run(p, "{" + (Digits(c.start) + ",") + (Digits(c.end) + ",")))
  {
    hide Run, ReadByte, Digits, Planning, Wellformed, ToContact;
    var q := StartRead(p, c.start);
    TimeEnds(q, c.start);
    var c0, c1 := Contact(0, 0, 0, []), Contact(c.start * 1000, 0, 0, []);
    Replaced(p, c0, c1, StartTime, EndTime, Digits(c.start));
    PlanningKeeps(p, c1, EndTime);
    RunSplit(p, "{" + (Digits(c.start) + ","), Digits(c.end) + ",");
    var p2 := Planning(p, [c1], EndTime);
    NumberRead(p2, c.end, ',');
    LateTimeRefused(p2.(digits := Digits(c.end)), c.end);
    PlanningSentAt(p, [c1], EndTime);
  }

  lemma PlanningSentAt(p: Parser, contacts: seq<Contact>, stage: Stage)
    ensures Planning(p, contacts, stage).sent == p.sent
  {
  }

  lemma LateContactRefused(p: Parser, c: Planned)
    requires Wellformed(p) && p.status == Good && p.stage == ContactStart && p.digits == "" && !TimesInRange(c)
    ensures Refused(p, Run(p, PrintContact(c)))
  {
    hide Run, Digits, PrintContact, Refused, Wellformed;
    var a, b, d := Digits(c.start) + ",", Digits(c.end) + ",", Digits(c.bitrate) + "}";
    ContactPrinted(c);
    if c.start >= (TWO_64 - 1) / 1000 {
      LateStartRefused(p, c);
      RefusedOnward(p, "{" + a, b);
    } else {
      LateEndRefused(p, c);
    }
    RefusedOnward(p, "{" + a + b, d);
  }

  lemma {:induction false} LateContactsRefused(p: Parser, contacts: seq<Planned>)
    requires Wellformed(p) && p.status == Good && p.stage == ContactStart && p.digits == ""
    requires exists i :: 0 <= i < |contacts| && !TimesInRange(contacts[i])
    ensures Refused(p, Run(p, PrintContacts(contacts)))
    decreases |contacts|
  {
    hide Run, PrintContact, TimesInRange, Timed, Planning, PrintContacts, Wellformed, To, Refused;
    var others := contacts[1..];
    if |contacts| > 1 {
      ContactsPrinted(contacts);
    }
    if !TimesInRange(contacts[0]) {
      LateContactRefused(p, contacts[0]);
      if |contacts| == 1 {
        OneContact(contacts);
      } else {
        var tail := "," + PrintContacts(others);
        assert PrintContact(contacts[0]) + "," + PrintContacts(others) == PrintContact(contacts[0]) + tail;
        RunSplit(p, PrintContact(contacts[0]), tail);
        RefusedStays(p, Run(p, PrintContact(contacts[0])), tail);
      }
    } else {
      var i :| 0 <= i < |contacts| && !TimesInRange(contacts[i]);
      assert others[i - 1] == contacts[i];
      var c := Timed(contacts[0]);
      var q := Planning(p, [c], ContactSeparator);
      ContactPartRead(p, contacts[0]);
      PlanningReady(p, [c]);
      Run3(p, PrintContact(contacts[0]), ",", PrintContacts(others));
      ContactCommaRead(q);
      LateContactsRefused(To(q, ContactStart), others);
      PlanningSent(p, [c]);
      SameSent(p, To(q, ContactStart), Run(To(q, ContactStart), PrintContacts(others)));
    }
  }

  lemma PlanningSent(p: Parser, contacts: seq<Contact>)
    ensures To(Planning(p, contacts, ContactSeparator), ContactStart).sent == p.sent
  {
  }

  lemma SameSent(p: Parser, q: Parser, r: Parser)
    requires Refused(q, r) && q.sent == p.sent
    ensures Refused(p, r)
  {
  }

  /** The message as it was meant, with its rates. */
  function Intended(m: Message): Command {
    Expected(m).(contacts := seq(|m.contacts|, i requires 0 <= i < |m.contacts| =>
                                   Timed(m.contacts[i]).(bitrate := m.contacts[i].bitrate)))
  }

  lemma LateMessageRefused(m: Message)
    requires TextsPermitted(m) && exists i :: 0 <= i < |m.contacts| && !TimesInRange(m.contacts[i])
    ensures Run(START, Print(m)).status == Error && Run(START, Print(m)).sent == []
  {
    hide Run, Print, PrintEids, PrintContacts, Eid.Normalise, TimesInRange, IsEidText, IsAddressText;
    var reachable := (if m.reachable == [] then "" else "[" + PrintEids(m.reachable) + "]") + ":";
    var list := PrintContacts(m.contacts);
    var contacts := "[" + list + "]" + ";";
    Printed(m);
    Run3(START, [m.kind] + ("(" + m.eid + ")") + ":" + ("(" + m.address + ")") + ":", reachable, contacts);
    HeadRead(m);
    NodesPartRead(Head(m), m.reachable);
    var p := Reaching(Head(m), Normalised(m.reachable), ContactListStart);
    CommandBytesRead(p);
    RunSplit(p, "[" + list + "]", ";");
    Run3(p, "[", list, "]");
    LateContactsRefused(To(p, ContactStart), m.contacts);
    RefusedStays(To(p, ContactStart), Run(To(p, ContactStart), list), "]");
    RefusedStays(To(p, ContactStart), Run(p, "[" + list + "]"), ";");
  }

  lemma RateFits(n: nat)
    ensures Rate(n) == n <==> n < TWO_32
  {
  }

  /** The message comes back as it was meant if and only if the parser's ranges
      hold its times and rates. */
  lemma PrintedComesBackExactly(m: Message)
    requires TextsPermitted(m)
    ensures Run(START, Print(m)).sent == [Intended(m)]
            <==> forall i :: 0 <= i < |m.contacts| ==> TimesInRange(m.contacts[i]) && m.contacts[i].bitrate < TWO_32
  {
    hide Run, Print, TimesInRange, Rate, TextsPermitted, Normalised;
    forall i | 0 <= i < |m.contacts|
      ensures Rate(m.contacts[i].bitrate) == m.contacts[i].bitrate <==> m.contacts[i].bitrate < TWO_32
    {
      RateFits(m.contacts[i].bitrate);
    }
    if exists i :: 0 <= i < |m.contacts| && !TimesInRange(m.contacts[i]) {
      LateMessageRefused(m);
    } else {
      PrintedIsParsed(m);
      var got, meant := Expected(m).contacts, Intended(m).contacts;
      forall i | 0 <= i < |m.contacts| ensures got[i] == meant[i] <==> m.contacts[i].bitrate < TWO_32 {
      }
      if forall i :: 0 <= i < |m.contacts| ==> m.contacts[i].bitrate < TWO_32 {
        assert got == meant;
      }
    }
  }

  // ---- Windows of accepted commands, whatever was sent

  predicate Bounded(c: Contact) {
    c.fromMs + 500 < TWO_64 && c.toMs + 500 < TWO_64 && c.bitrate < TWO_32
  }

  predicate AllBounded(contacts: seq<Contact>) {
    forall i :: 0 <= i < |contacts| ==> Bounded(contacts[i])
  }

  predicate OnlyBounded(p: Parser) {
    && (p.status != Error ==> AllBounded(p.command.contacts))
    && forall k :: 0 <= k < |p.sent| ==> AllBounded(p.sent[k].contacts)
  }

  lemma BoundedTime(n: nat)
    requires n < (TWO_64 - 1) / 1000
    ensures n * 1000 + 500 < TWO_64
  {
  }

  lemma LastBounded(contacts: seq<Contact>, c: Contact)
    requires AllBounded(contacts) && contacts != [] && Bounded(c)
    ensures AllBounded(WithLast(contacts, c)) && Bounded(Last(contacts))
  {
  }

  lemma NumbersBounded(p: Parser, c: char)
    requires Wellformed(p) && p.status == Good && p.stage in {StartTime, EndTime, Bitrate}
    requires AllBounded(p.command.contacts)
    ensures NumbersByte(p, c).sent == p.sent
    ensures NumbersByte(p, c).status != Error ==> AllBounded(NumbersByte(p, c).command.contacts)
  {
    hide AllBounded, Saturated, WithLast;
    var n, contact := Saturated(p.digits), Last(p.command.contacts);
    LastBounded(p.command.contacts, Contact(0, 0, 0, []));
    if n < (TWO_64 - 1) / 1000 {
      BoundedTime(n);
      LastBounded(p.command.contacts, contact.(fromMs := n * 1000));
      LastBounded(p.command.contacts, contact.(toMs := n * 1000));
    }
    LastBounded(p.command.contacts, contact.(bitrate := n % TWO_32));
  }

  lemma ContactsBounded(p: Parser, c: char)
    requires Wellformed(p) && p.status == Good && AllBounded(p.command.contacts)
    ensures ContactsByte(p, c).sent == p.sent && AllBounded(ContactsByte(p, c).command.contacts)
  {
    hide WithLast, Eid.Normalise;
    if p.command.contacts != [] {
      var contact := Last(p.command.contacts);
      assert forall endpoints :: AllBounded(WithLast(p.command.contacts, contact.(endpoints := endpoints))) by {
        forall endpoints ensures AllBounded(WithLast(p.command.contacts, contact.(endpoints := endpoints))) {
          LastBounded(p.command.contacts, contact.(endpoints := endpoints));
        }
      }
    }
  }

  lemma OthersBounded(p: Parser, c: char)
    requires Wellformed(p)
    ensures HeadByte(p, c).command.contacts == p.command.contacts && HeadByte(p, c).sent == p.sent
    ensures NodesByte(p, c).command.contacts == p.command.contacts && NodesByte(p, c).sent == p.sent
  {
    hide Eid.Normalise, WithLast, Eid.Decimal;
  }

  lemma ByteBounded(p: Parser, c: char)
    requires Wellformed(p) && OnlyBounded(p)
    ensures OnlyBounded(ReadByte(p, c))
  {
    hide HeadByte, NodesByte, NumbersByte, ContactsByte, AllBounded;
    if p.status == Good {
      OthersBounded(p, c);
      ContactsBounded(p, c);
      if p.stage in {StartTime, EndTime, Bitrate} {
        NumbersBounded(p, c);
      }
    }
  }

  /** Whatever octets come in: every contact of every command that is handed over
      has its window well below 2^64 ms and a rate of 32 bits. */
  lemma {:induction false} AcceptedWindows(p: Parser, s: string)
    requires Wellformed(p) && OnlyBounded(p)
    ensures OnlyBounded(Run(p, s))
    decreases |s|
  {
    hide ReadByte, OnlyBounded;
    if s != "" {
      ByteBounded(p, s[0]);
      AcceptedWindows(ReadByte(p, s[0]), s[1..]);
    }
  }

  // ---- Buffers

  /** `config_parser_read`: an error resets the parser and drops the rest of the
      buffer. */
  function ReadBuffer(p: Parser, s: string): (r: Parser)
    requires Wellformed(p)
    ensures Wellformed(r)
    decreases |s|
  {
    if s == "" then p
    else
      var q := ReadByte(p, s[0]);
      if q.status == Error then START.(sent := q.sent) else ReadBuffer(q, s[1..])
  }

  lemma {:induction false} BufferIsRun(p: Parser, s: string)
    requires Wellformed(p) && Run(p, s).status != Error
    ensures ReadBuffer(p, s) == Run(p, s)
    decreases |s|
  {
    hide ReadByte;
    if s != "" {
      var q := ReadByte(p, s[0]);
      if q.status == Error {
        DoneIgnores(q, s[1..]);
        assert false;
      }
      BufferIsRun(q, s[1..]);
    }
  }

  function ReadBuffers(p: Parser, chunks: seq<string>): (r: Parser)
    requires Wellformed(p)
    ensures Wellformed(r)
    decreases chunks
  {
    if chunks == [] then p else ReadBuffers(ReadBuffer(p, chunks[0]), chunks[1..])
  }

  lemma {:induction false} BuffersAreRun(p: Parser, chunks: seq<string>)
    requires Wellformed(p) && Run(p, Concat(chunks)).status != Error
    ensures ReadBuffers(p, chunks) == Run(p, Concat(chunks))
    decreases chunks
  {
    hide Run, ReadByte;
    if chunks != [] {
      var rest := Concat(chunks[1..]);
      RunSplit(p, chunks[0], rest);
      var q := Run(p, chunks[0]);
      if q.status == Error {
        DoneIgnores(q, rest);
        assert false;
      }
      BufferIsRun(p, chunks[0]);
      BuffersAreRun(q, chunks[1..]);
    } else {
      assert Run(p, "") == p by { RunNothing(p); }
    }
  }

  lemma RunNothing(p: Parser)
    requires Wellformed(p)
    ensures Run(p, "") == p
  {
  }

  /** So it is in any chunks. */
  lemma PrintedIsParsedInChunks(m: Message, chunks: seq<string>)
    requires Permitted(m) && Concat(chunks) == Print(m)
    ensures ReadBuffers(START, chunks).status == Done && ReadBuffers(START, chunks).sent == [Expected(m)]
  {
    hide Permitted, Print, Expected, Run, ReadBuffers;
    PrintedIsParsed(m);
    BuffersAreRun(START, chunks);
  }
}
