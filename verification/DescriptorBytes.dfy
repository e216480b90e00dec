/** The descriptor parsers on bytes as a device sends them (descriptor.c), in numbers: types
    and lengths of section 9.6 of the USB 2.0 specification, the limits of 32 endpoints and
    interfaces, and the errors. */
module DescriptorBytes {
  import opened Descriptors
  import opened Options

  // ---------------------------------------------------------------------
  // Skipping

  /** n bytes that are descriptors of other types than device (1), configuration (2),
      interface (4) and endpoint (5), one after the other; where lengths are checked, none
      reaches behind the buffer. */
  ghost predicate OtherDescriptors(mem: Memory, pos: nat, size: int, n: nat, checked: bool)
    decreases n
  {
    n == 0 ||
    (&& size >= 2 && 2 <= At(mem, pos) <= n && At(mem, pos + 1) !in {1, 2, 4, 5}
     && (checked ==> At(mem, pos) <= size)
     && OtherDescriptors(mem, pos + At(mem, pos), size - At(mem, pos), n - At(mem, pos), checked))
  }

  /** A descriptor of a bad length: less than 2, or, where that is checked, more than is
      left. */
  ghost predicate BadLength(mem: Memory, pos: nat, size: int, checked: bool) {
    size >= 2 && (At(mem, pos) < 2 || (checked && At(mem, pos) > size))
  }

  /** The end of the buffer, or a device, configuration, interface or endpoint
      descriptor. */
  ghost predicate EndsSkipping(mem: Memory, pos: nat, size: int) {
    size < 2 || At(mem, pos + 1) in {1, 2, 4, 5}
  }

  /** What is skipped, exactly: everything up to where skipping ends; it fails exactly if
      a descriptor of a bad length comes first. */
  lemma {:induction false} SkipExactly(mem: Memory, pos: nat, size: int, checked: bool, n: nat)
    ensures Skip(mem, pos, size, checked) == Some(n)
       <==> && OtherDescriptors(mem, pos, size, n, checked) && EndsSkipping(mem, pos + n, size - n)
            && !BadLength(mem, pos + n, size - n, checked)
    ensures OtherDescriptors(mem, pos, size, n, checked) && BadLength(mem, pos + n, size - n, checked)
            ==> Skip(mem, pos, size, checked).None?
    decreases n
  {
    hide At;
    var l := At(mem, pos);
    if size >= 2 && 2 <= l <= n && !(checked && l > size) {
      SkipExactly(mem, pos + l, size - l, checked, n - l);
    }
  }

  /** When it fails there is such a descriptor. */
  lemma {:induction false} SkipFails(mem: Memory, pos: nat, size: int, checked: bool) returns (n: nat)
    requires Skip(mem, pos, size, checked).None?
    ensures OtherDescriptors(mem, pos, size, n, checked) && BadLength(mem, pos + n, size - n, checked)
    decreases if size < 0 then 0 else size
  {
    hide At;
    var l := At(mem, pos);
    if BadLength(mem, pos, size, checked) {
      n := 0;
    } else {
      var m := SkipFails(mem, pos + l, size - l, checked);
      n := l + m;
    }
  }

  // ---------------------------------------------------------------------
  // Endpoints

  /** The first bytes of some memory. */
  lemma {:induction false} AtFront(front: seq<Byte>, behind: Memory, i: nat)
    requires i < |front|
    ensures At(front + behind, i) == front[i]
  {
    AtIndex(front + behind, i);
  }

  const NOTHING := EndpointFields(0, 0, 0, 0, 0, 0, 0, 0)

  /** An endpoint descriptor as devices send it: length 7, type 5, address, attributes, the
      maximum packet size with its low byte first, interval. */
  lemma EndpointFromBytes(address: Byte, attributes: Byte, low: Byte, high: Byte, interval: Byte,
                          behind: Memory, size: int, m: nat)
    requires size >= 7
    requires Skip([7, 5, address, attributes, low, high, interval] + behind, 7, size - 7, false) == Some(m)
    ensures var mem := [7, 5, address, attributes, low, high, interval] + behind;
      EndpointAt(mem, 0, size, false)
      == Parsed(Endpoint(EndpointFields(7, 5, address, attributes, 256 * high + low, interval, 0, 0),
                         Bytes(mem, 7, m)), 7 + m)
  {
    hide At, Skip;
    var front := [7, 5, address, attributes, low, high, interval];
    forall i | 0 <= i < 7
      ensures At(front + behind, i) == front[i]
    {
      AtFront(front, behind, i);
    }
    assert At(front + behind, 0 + 1) == 5 && At(front + behind, 0 + 4) == low && At(front + behind, 0 + 5) == high;
  }

  /** The whole of a buffer. */
  lemma EndpointAlone(address: Byte, attributes: Byte, low: Byte, high: Byte, interval: Byte)
    ensures EndpointAt([7, 5, address, attributes, low, high, interval], 0, 7, false)
         == Parsed(Endpoint(EndpointFields(7, 5, address, attributes, 256 * high + low, interval, 0, 0), []), 7)
  {
    hide EndpointAt;
    var front := [7, 5, address, attributes, low, high, interval];
    assert front + [] == front;
    EndpointFromBytes(address, attributes, low, high, interval, [], 7, 0);
  }

  /** One of an audio device, of length 9, has two more bytes. */
  lemma AudioEndpointFromBytes(address: Byte, attributes: Byte, low: Byte, high: Byte, interval: Byte,
                               refresh: Byte, synch: Byte)
    ensures EndpointAt([9, 5, address, attributes, low, high, interval, refresh, synch], 0, 9, false)
         == Parsed(Endpoint(EndpointFields(9, 5, address, attributes, 256 * high + low, interval, refresh, synch),
                            []), 9)
  {
    hide At;
    var mem: Memory := [9, 5, address, attributes, low, high, interval, refresh, synch];
    forall i | 0 <= i < 9
      ensures At(mem, i) == mem[i]
    {
      AtIndex(mem, i);
    }
    assert At(mem, 0 + 1) == 5 && At(mem, 0 + 4) == low && At(mem, 0 + 5) == high;
  }

  /** Everything else that can come where an endpoint is expected: a length beyond the
      buffer is an error, a descriptor of another type reads as an empty endpoint and takes
      no bytes, a bad length behind the endpoint is an error, and one shorter than 7 bytes
      keeps all fields 0. */
  lemma EndpointOtherwise(mem: Memory, pos: nat, size: int, big: bool)
    ensures At(mem, pos) > size ==> EndpointAt(mem, pos, size, big) == Failed(-1)
    ensures At(mem, pos) <= size && At(mem, pos + 1) != 5 ==>
              EndpointAt(mem, pos, size, big) == Parsed(Endpoint(NOTHING, []), 0)
    ensures At(mem, pos) <= size && At(mem, pos + 1) == 5 ==>
              (EndpointAt(mem, pos, size, big).Failed? <==>
               Skip(mem, pos + At(mem, pos), size - At(mem, pos), false).None?)
    ensures EndpointAt(mem, pos, size, big).Failed? ==> EndpointAt(mem, pos, size, big).code == -1
    ensures At(mem, pos) < 7 && EndpointAt(mem, pos, size, big).Parsed? ==>
              EndpointAt(mem, pos, size, big).value.head == NOTHING
  {
    hide At, Skip;
  }

  // ---------------------------------------------------------------------
  // Interfaces

  /** An interface descriptor: length 9, type 4, number, alternate setting, number of
      endpoints, class, subclass, protocol, string index. */
  lemma InterfaceFromBytes(number: Byte, alternate: Byte, endpoints: Byte, class_: Byte, subclass: Byte,
                           protocol: Byte, index: Byte, behind: Memory, size: int, m: nat)
    requires Skip([9, 4, number, alternate, endpoints, class_, subclass, protocol, index] + behind, 9, size - 9, false)
          == Some(m)
    ensures var mem := [9, 4, number, alternate, endpoints, class_, subclass, protocol, index] + behind;
      AltHeadAt(mem, 0, size)
      == Parsed(AltSetting(InterfaceFields(9, 4, number, alternate, endpoints, class_, subclass, protocol, index),
                           Bytes(mem, 9, m), []), 9 + m)
  {
    hide At, Skip;
    var front := [9, 4, number, alternate, endpoints, class_, subclass, protocol, index];
    forall i | 0 <= i < 9
      ensures At(front + behind, i) == front[i]
    {
      AtFront(front, behind, i);
    }
    assert At(front + behind, 0 + 8) == index && At(front + behind, 0 + 7) == protocol;
    assert At(front + behind, 0 + 6) == subclass && At(front + behind, 0 + 5) == class_;
    assert At(front + behind, 0 + 4) == endpoints && At(front + behind, 0 + 3) == alternate;
    assert At(front + behind, 0 + 2) == number && At(front + behind, 0 + 1) == 4;
  }

  /** What follows the head of a setting: in front of a configuration (2) or device (1)
      descriptor the interface ends; more than 32 endpoints are an error; otherwise that
      many endpoints are parsed, and another setting follows exactly if at least 9 bytes are
      left that begin an interface descriptor (4) with an alternate setting. */
  lemma AfterHead(mem: Memory, pos: nat, size: int, big: bool, alt: AltSetting, u: nat)
    ensures var r := AltRestAt(mem, pos, size, big, alt, u);
      if size >= 2 && At(mem, pos + 1) in {1, 2} then r == Parsed(Setting(alt, true), u)
      else if alt.head.numEndpoints > 32 then r == Failed(-1)
      else
        var es := EndpointsAt(mem, pos, size, alt.head.numEndpoints, big);
        && (es.Failed? ==> r == Failed(es.code))
        && (es.Parsed? ==>
              && r.Parsed? && r.used == u + es.used && r.value.alt == alt.(endpoints := es.value)
              && (!r.value.last <==>
                  size - es.used >= 9 && At(mem, pos + es.used + 1) == 4 && At(mem, pos + es.used + 3) != 0))
  {
    hide At, EndpointsAt;
  }

  // ---------------------------------------------------------------------
  // Configurations

  /** A configuration descriptor: length 9, type 2, total length with its low byte first,
      number of interfaces, value, string index, attributes, maximum power.  More than 32
      interfaces are an error. */
  lemma ConfigurationFromBytes(low: Byte, high: Byte, interfaces: Byte, value: Byte, index: Byte,
                               attributes: Byte, power: Byte, behind: Memory)
    ensures var mem := [9, 2, low, high, interfaces, value, index, attributes, power] + behind;
      var total := 256 * high + low;
      var head := ConfigurationFields(9, 2, total, interfaces, value, index, attributes, power);
      var r := ConfigurationAt(mem, 0, false);
      && (interfaces > 32 ==> r == Failed(-1))
      && (interfaces <= 32 ==>
            var content := InterfacesAt(mem, 9, total - 9, interfaces, [], false);
            && (content.Failed? ==> r == Failed(content.code))
            && (content.Parsed? ==>
                  r == Parsed(Reading(Configuration(head, content.value.extra, content.value.interfaces),
                                      total - 9 - content.used), 9 + content.used)))
  {
    hide At, InterfacesAt;
    var front := [9, 2, low, high, interfaces, value, index, attributes, power];
    forall i | 0 <= i < 9
      ensures At(front + behind, i) == front[i]
    {
      AtFront(front, behind, i);
    }
    assert At(front + behind, 0 + 8) == power && At(front + behind, 0 + 7) == attributes;
    assert At(front + behind, 0 + 6) == index && At(front + behind, 0 + 5) == value;
    assert At(front + behind, 0 + 4) == interfaces && At(front + behind, 0 + 2 + 1) == high;
    assert At(front + behind, 0 + 2) == low && At(front + behind, 0 + 1) == 2;
  }

  /** Extra bytes that are kept already are not replaced by those in front of a later
      interface. */
  lemma {:induction false} FirstExtraKept(mem: Memory, pos: nat, size: int, n: nat, extra: seq<Byte>, big: bool)
    requires extra != [] && InterfacesAt(mem, pos, size, n, extra, big).Parsed?
    ensures InterfacesAt(mem, pos, size, n, extra, big).value.extra == extra
    decreases n
  {
    hide At, SectionAt;
    if n > 0 {
      var u := SectionAt(mem, pos, size, big).used;
      FirstExtraKept(mem, pos + u, size - u, n - 1, extra, big);
    }
  }

  /** The first ones are those in front of the first interface that has any. */
  lemma FirstExtraTaken(mem: Memory, pos: nat, size: int, n: nat, m: nat, big: bool)
    requires n > 0 && Skip(mem, pos, size, true) == Some(m) && m > 0
    requires InterfacesAt(mem, pos, size, n, [], big).Parsed?
    ensures InterfacesAt(mem, pos, size, n, [], big).value.extra == Bytes(mem, pos, m)
  {
    hide At, Skip, AltsAt;
    var u := SectionAt(mem, pos, size, big).used;
    BytesSize(mem, pos, m);
    FirstExtraKept(mem, pos + u, size - u, n - 1, Bytes(mem, pos, m), big);
  }

  lemma {:induction false} BytesSize(mem: Memory, pos: nat, n: nat)
    ensures |Bytes(mem, pos, n)| == n
    decreases n
  {
    if n > 0 { BytesSize(mem, pos + 1, n - 1); }
  }

  // ---------------------------------------------------------------------
  // A configuration, byte by byte

  function FirstSetting(): AltSetting {
    AltSetting(InterfaceFields(9, 4, 0, 0, 0, 3, 1, 1, 0), [3, 0x24, 7], [])
  }

  function BulkEndpoint(): Endpoint {
    Endpoint(EndpointFields(8, 5, 0x81, 2, 512, 0, 0, 0), [])
  }

  function SecondSetting(): AltSetting {
    AltSetting(InterfaceFields(9, 4, 0, 1, 1, 3, 1, 1, 0), [], [BulkEndpoint()])
  }

  function Example(): Configuration {
    Configuration(ConfigurationFields(9, 2, 40, 1, 1, 0, 0x80, 50), [2, 0x30], [[FirstSetting(), SecondSetting()]])
  }

  const FIRST: seq<Byte> := [9, 4, 0, 0, 0, 3, 1, 1, 0, 3, 0x24, 7]
  const SECOND: seq<Byte> := [9, 4, 0, 1, 1, 3, 1, 1, 0]
  const BULK: seq<Byte> := [8, 5, 0x81, 2, 0, 2, 0, 0]
  const START: seq<Byte> := [9, 2, 40, 0, 1, 1, 0, 0x80, 50, 2, 0x30]

  lemma {:induction false} EncodedBytes(values: seq<nat>, bytes: seq<Byte>, format: string, big: bool)
    requires |values| == |format| && Fits(values, format) && |bytes| == |format|
    requires forall k :: 0 <= k < |format| ==> format[k] == 'b' && values[k] == bytes[k]
    ensures Encode(values, format, big) == bytes
    decreases |format|
  {
    if format != "" {
      EncodedBytes(values[1..], bytes[1..], format[1..], big);
      assert bytes == [bytes[0]] + bytes[1..];
    }
  }

  /** Fields with a word of two bytes, low byte first. */
  lemma {:induction false} EncodedWord(values: seq<nat>, front: seq<Byte>, low: Byte, high: Byte, back: seq<Byte>,
                                       format: string)
    requires |values| == |format| == |front| + 1 + |back| && Fits(values, format)
    requires forall k :: 0 <= k < |format| ==> format[k] == if k == |front| then 'w' else 'b'
    requires forall k :: 0 <= k < |front| ==> values[k] == front[k]
    requires values[|front|] == 256 * high + low
    requires forall k :: 0 <= k < |back| ==> values[|front| + 1 + k] == back[k]
    ensures Encode(values, format, false) == front + [low, high] + back
    decreases |format|
  {
    assert Fits(values[1..], format[1..]);
    if front == [] {
      EncodedBytes(values[1..], back, format[1..], false);
      assert [] + [low, high] + back == [low, high] + back;
    } else {
      EncodedWord(values[1..], front[1..], low, high, back, format[1..]);
      assert front + [low, high] + back == [front[0]] + (front[1..] + [low, high] + back);
    }
  }

  lemma BulkBytes()
    ensures WellFormedEndpoint(BulkEndpoint()) && SerializeEndpoint(BulkEndpoint(), false) == BULK
  {
    var h := BulkEndpoint().head;
    EncodedWord(EndpointValues(h), [8, 5, 0x81, 2], 0, 2, [0], "bbbbwb");
    assert [8, 5, 0x81, 2] + [0, 2] + [0] + Zeros(1) + [] == BULK by { assert Zeros(1) == [0] + Zeros(0); }
  }

  lemma FirstBytes()
    ensures WellFormedAlt(FirstSetting()) && SerializeAlt(FirstSetting(), false) == FIRST
  {
    var h := FirstSetting().head;
    assert [3, 0x24, 7][3..] == [];
    EncodedBytes(InterfaceValues(h), [9, 4, 0, 0, 0, 3, 1, 1, 0], "bbbbbbbbb", false);
    assert [9, 4, 0, 0, 0, 3, 1, 1, 0] + Zeros(0) + [3, 0x24, 7] + [] == FIRST;
  }

  lemma SecondBytes()
    ensures WellFormedAlt(SecondSetting()) && SerializeAlt(SecondSetting(), false) == SECOND + BULK
  {
    hide Encode, SerializeEndpoint, WellFormedEndpoint, BulkEndpoint;
    var h := SecondSetting().head;
    BulkBytes();
    EncodedBytes(InterfaceValues(h), SECOND, "bbbbbbbbb", false);
    assert SerializeEndpoints([BulkEndpoint()], false) == BULK + SerializeEndpoints([BulkEndpoint()][1..], false);
    assert SECOND + Zeros(0) + [] + (BULK + []) == SECOND + BULK;
  }

  lemma SettingsBytes()
    ensures WellFormedInterface([FirstSetting(), SecondSetting()])
    ensures SerializeAlts([FirstSetting(), SecondSetting()], false) == FIRST + SECOND + BULK
  {
    hide SerializeAlt, WellFormedAlt;
    var settings := [FirstSetting(), SecondSetting()];
    FirstBytes();
    SecondBytes();
    assert settings[1..] == [SecondSetting()] && settings[1..][1..] == [];
    assert SerializeAlts(settings[1..], false) == SECOND + BULK + [];
    assert FIRST + (SECOND + BULK + []) == FIRST + SECOND + BULK;
  }

  lemma InterfaceBytes()
    ensures forall i :: 0 <= i < |Example().interfaces| ==> WellFormedInterface(Example().interfaces[i])
    ensures SerializeInterfaces(Example().interfaces, false) == FIRST + SECOND + BULK
  {
    hide SerializeAlts, WellFormedInterface, FirstSetting, SecondSetting;
    SettingsBytes();
    var s := Example().interfaces;
    assert s[1..] == [] && SerializeInterfaces(s[1..], false) == [];
    assert FIRST + SECOND + BULK + [] == FIRST + SECOND + BULK;
  }

  /** An example byte by byte: a configuration of 40 bytes with a class specific descriptor
      in front of its interface, two alternate settings, another such descriptor behind the
      first one, and a padded bulk endpoint 0x81 of 512 bytes in the second. */
  lemma ExampleBytes()
    ensures WellFormed(Example()) && Serialize(Example(), false) == START + FIRST + SECOND + BULK
  {
    hide SerializeInterfaces, WellFormedInterface, FirstSetting, SecondSetting, Encode, Foreign, InterfacesSize;
    ExampleIsWellFormed();
    InterfaceBytes();
    EncodedWord(ConfigurationValues(Example().head), [9, 2], 40, 0, [1, 1, 0, 0x80, 50], "bbwbbbbb");
    assert [9, 2] + [40, 0] + [1, 1, 0, 0x80, 50] + Zeros(0) + [2, 0x30] == START;
    assert START + (FIRST + SECOND + BULK) == START + FIRST + SECOND + BULK;
  }

  lemma ExampleIsWellFormed()
    ensures WellFormed(Example())
  {
    WellFormedExample();
  }

  /** The parser on those bytes. */
  lemma ExampleParsed(behind: seq<Byte>)
    ensures ConfigurationAt(START + FIRST + SECOND + BULK + behind, 0, false) == Parsed(Reading(Example(), 0), 40)
  {
    hide Serialize, WellFormed, ConfigurationAt, Example;
    ExampleBytes();
    var bytes := START + FIRST + SECOND + BULK;
    forall i | 0 <= i < |bytes|
      ensures At(bytes + behind, 0 + i) == bytes[i]
    {
      AtFront(bytes, behind, i);
    }
    ParserInvertsSerializer(bytes + behind, 0, Example(), false);
  }
}
