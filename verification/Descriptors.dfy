/** The USB descriptor parsers of libusb (descriptor.c): endpoint, interface and
    configuration descriptors, sections 9.6.3, 9.6.5 and 9.6.6 of the USB 2.0
    specification.  A parser may look past the end of the buffer, where any byte
    can be found. */
module Descriptors {
  import opened Options

  type Byte = x: nat | x < 256 witness 0

  /** The buffer and whatever lies behind it. */
  type Memory = seq<Byte>

  function At(mem: Memory, i: nat): Byte {
    if mem == [] then 0 else if i == 0 then mem[0] else At(mem[1..], i - 1)
  }

  lemma {:induction false} AtIndex(mem: Memory, i: nat)
    ensures At(mem, i) == if i < |mem| then mem[i] else 0
  {
    if mem != [] && i > 0 { AtIndex(mem[1..], i - 1); }
  }

  /** A negative return value, or what was parsed and how many bytes it took. */
  datatype Outcome<T> = Failed(code: int) | Parsed(value: T, used: nat)

  const DEVICE := 1
  const CONFIG := 2
  const INTERFACE := 4
  const ENDPOINT := 5
  const DESC_HEADER_LENGTH := 2
  const CONFIG_DESC_LENGTH := 9
  const INTERFACE_DESC_LENGTH := 9
  const ENDPOINT_DESC_LENGTH := 7
  const ENDPOINT_AUDIO_DESC_LENGTH := 9
  const MAX_ENDPOINTS := 32
  const MAX_INTERFACES := 32
  const ERROR_IO := -1

  datatype EndpointFields = EndpointFields(
    length: nat, kind: nat, address: nat, attributes: nat, maxPacketSize: nat, interval: nat,
    refresh: nat, synchAddress: nat)

  datatype Endpoint = Endpoint(head: EndpointFields, extra: seq<Byte>)

  datatype InterfaceFields = InterfaceFields(
    length: nat, kind: nat, number: nat, alternate: nat, numEndpoints: nat,
    class_: nat, subclass: nat, protocol: nat, index: nat)

  datatype AltSetting = AltSetting(head: InterfaceFields, extra: seq<Byte>, endpoints: seq<Endpoint>)

  datatype ConfigurationFields = ConfigurationFields(
    length: nat, kind: nat, totalLength: nat, numInterfaces: nat, value: nat, index: nat,
    attributes: nat, maxPower: nat)

  datatype Configuration = Configuration(
    head: ConfigurationFields, extra: seq<Byte>, interfaces: seq<seq<AltSetting>>)

  const NO_FIELDS := EndpointFields(0, 0, 0, 0, 0, 0, 0, 0)
  const ZERO_ENDPOINT := Endpoint(NO_FIELDS, [])

  /** The types that end a run of class or vendor specific descriptors. */
  predicate Proper(kind: nat) {
    kind == ENDPOINT || kind == INTERFACE || kind == CONFIG || kind == DEVICE
  }

  /** A copy of some bytes. */
  function Bytes(mem: Memory, pos: nat, n: nat): seq<Byte>
    decreases n
  {
    if n == 0 then [] else [At(mem, pos)] + Bytes(mem, pos + 1, n - 1)
  }

  ghost predicate Holds(mem: Memory, pos: nat, s: seq<Byte>) {
    forall i :: 0 <= i < |s| ==> At(mem, pos + i) == s[i]
  }

  // ---------------------------------------------------------------------
  // usbi_parse_descriptor

  /** Words are little-endian on the bus; with host_endian they are in the order of
      the host, which `big` describes. */
  function Word(mem: Memory, pos: nat, big: bool): nat {
    if big then At(mem, pos) * 256 + At(mem, pos + 1) else At(mem, pos + 1) * 256 + At(mem, pos)
  }

  function Width(c: char): nat {
    if c == 'b' then 1 else if c == 'w' then 2 else 0
  }

  /** How far the k-th field of a format is from its start. */
  function Offset(format: string, k: nat): nat
    requires k <= |format|
  {
    if k == 0 then 0 else Offset(format, k - 1) + Width(format[k - 1])
  }

  function Field(mem: Memory, pos: nat, c: char, big: bool): nat {
    if c == 'b' then At(mem, pos) else Word(mem, pos, big)
  }

  /** The fields that a format reads. */
  function Decode(mem: Memory, pos: nat, format: string, big: bool): seq<nat>
    decreases |format|
  {
    if format == "" then []
    else (if Width(format[0]) == 0 then [] else [Field(mem, pos, format[0], big)])
         + Decode(mem, pos + Width(format[0]), format[1..], big)
  }

  lemma DecodeStep(mem: Memory, pos: nat, format: string, k: nat, big: bool, done: seq<nat>)
    requires k < |format|
    ensures var here := if Width(format[k]) == 0 then [] else [Field(mem, pos, format[k], big)];
      done + Decode(mem, pos, format[k..], big)
      == (done + here) + Decode(mem, pos + Width(format[k]), format[k + 1..], big)
  {
    assert format[k..][1..] == format[k + 1..];
  }

  lemma DecodeEnd(mem: Memory, pos: nat, format: string, big: bool, done: seq<nat>)
    ensures done + Decode(mem, pos, format[|format|..], big) == done
  {
  }

  method ParseDescriptor(mem: Memory, source: nat, format: string, big: bool) returns (fields: seq<nat>, r: nat)
    ensures fields == Decode(mem, source, format, big)
    ensures r == Offset(format, |format|)
  {
    hide At, Word, Decode;
    var sp := source;
    fields := [];
    var cp := 0;
    while cp < |format|
      invariant 0 <= cp <= |format| && sp == source + Offset(format, cp)
      invariant fields + Decode(mem, sp, format[cp..], big) == Decode(mem, source, format, big)
    {
      DecodeStep(mem, sp, format, cp, big, fields);
      if format[cp] == 'b' {
        fields := fields + [At(mem, sp)];
        sp := sp + 1;
      } else if format[cp] == 'w' {
        var w := Word(mem, sp, big);
        fields := fields + [w];
        sp := sp + 2;
      }
      cp := cp + 1;
    }
    DecodeEnd(mem, sp, format, big, fields);
    r := sp - source;
  }

  predicate PlainFormat(format: string) {
    forall k :: 0 <= k < |format| ==> format[k] == 'b' || format[k] == 'w'
  }

  lemma {:induction false} OffsetTail(format: string, k: nat)
    requires 0 < k <= |format|
    ensures Offset(format, k) == Width(format[0]) + Offset(format[1..], k - 1)
  {
    if k > 1 { OffsetTail(format, k - 1); }
  }

  /** Each field on its own. */
  lemma {:induction false} DecodeField(mem: Memory, pos: nat, format: string, big: bool, k: nat)
    requires PlainFormat(format) && k < |format|
    ensures |Decode(mem, pos, format, big)| == |format|
    ensures Decode(mem, pos, format, big)[k] == Field(mem, pos + Offset(format, k), format[k], big)
    decreases |format|
  {
    var w := Width(format[0]);
    if |format| > 1 {
      DecodeField(mem, pos + w, format[1..], big, if k == 0 then 0 else k - 1);
    }
    if k > 0 { OffsetTail(format, k); }
  }

  /** A format of bytes with at most one word, at position w. */
  predicate OneWord(format: string, w: nat) {
    forall k :: 0 <= k < |format| ==> format[k] == if k == w then 'w' else 'b'
  }

  lemma {:induction false} OneWordOffset(format: string, w: nat, k: nat)
    requires OneWord(format, w) && k <= |format|
    ensures Offset(format, k) == if k <= w then k else k + 1
  {
    if k > 0 { OneWordOffset(format, w, k - 1); }
  }

  function OneWordField(mem: Memory, pos: nat, k: nat, w: nat, big: bool): nat {
    if k < w then At(mem, pos + k) else if k == w then Word(mem, pos + k, big) else At(mem, pos + k + 1)
  }

  lemma DecodeAt(mem: Memory, pos: nat, format: string, big: bool, w: nat)
    requires OneWord(format, w)
    ensures |Decode(mem, pos, format, big)| == |format|
    ensures forall k :: 0 <= k < |format| ==>
              Decode(mem, pos, format, big)[k] == OneWordField(mem, pos, k, w, big)
  {
    if format != "" { DecodeField(mem, pos, format, big, 0); }
    forall k | 0 <= k < |format|
      ensures Decode(mem, pos, format, big)[k] == OneWordField(mem, pos, k, w, big)
    {
      DecodeField(mem, pos, format, big, k);
      OneWordOffset(format, w, k);
    }
  }

  predicate FitsIn(v: nat, c: char) {
    v < 65536 && (c == 'b' ==> v < 256)
  }

  function EncodeField(v: nat, c: char, big: bool): seq<Byte>
    requires FitsIn(v, c)
  {
    if c == 'b' then [v] else if big then [v / 256, v % 256] else [v % 256, v / 256]
  }

  /** The bytes of some fields; the inverse of Decode. */
  function Encode(fields: seq<nat>, format: string, big: bool): seq<Byte>
    requires |fields| == |format| && Fits(fields, format)
    decreases |format|
  {
    if format == "" then []
    else EncodeField(fields[0], format[0], big) + Encode(fields[1..], format[1..], big)
  }

  predicate Fits(fields: seq<nat>, format: string)
    requires |fields| == |format|
  {
    forall k :: 0 <= k < |format| ==> FitsIn(fields[k], format[k])
  }

  lemma HoldsBoth(mem: Memory, pos: nat, a: seq<Byte>, b: seq<Byte>)
    requires Holds(mem, pos, a + b)
    ensures Holds(mem, pos, a) && Holds(mem, pos + |a|, b)
  {
    assert forall i :: 0 <= i < |a| ==> a[i] == (a + b)[i];
    assert forall i :: 0 <= i < |b| ==> b[i] == (a + b)[|a| + i];
  }

  lemma FieldInvertsEncodeField(mem: Memory, pos: nat, v: nat, c: char, big: bool)
    requires FitsIn(v, c) && Holds(mem, pos, EncodeField(v, c, big))
    ensures Field(mem, pos, c, big) == v
  {
    var s := EncodeField(v, c, big);
    assert At(mem, pos + 0) == s[0] && (|s| > 1 ==> At(mem, pos + 1) == s[1]);
  }

  lemma {:induction false} DecodeInvertsEncode(mem: Memory, pos: nat, fields: seq<nat>, format: string, big: bool)
    requires |fields| == |format| && PlainFormat(format) && Fits(fields, format)
    requires Holds(mem, pos, Encode(fields, format, big))
    ensures Decode(mem, pos, format, big) == fields
    ensures |Encode(fields, format, big)| == Offset(format, |format|)
    decreases |format|
  {
    if format != "" {
      HoldsBoth(mem, pos, EncodeField(fields[0], format[0], big), Encode(fields[1..], format[1..], big));
      FieldInvertsEncodeField(mem, pos, fields[0], format[0], big);
      DecodeInvertsEncode(mem, pos + Width(format[0]), fields[1..], format[1..], big);
      OffsetTail(format, |format|);
    }
  }

  /** struct usb_descriptor_header. */
  datatype Header = Header(length: nat, kind: nat)

  method ParseHeader(mem: Memory, buffer: nat) returns (header: Header)
    ensures header == Header(At(mem, buffer), At(mem, buffer + 1))
  {
    var f, _ := ParseDescriptor(mem, buffer, "bb", false);
    DecodeAt(mem, buffer, "bb", false, 2);
    header := Header(f[0], f[1]);
  }

  // ---------------------------------------------------------------------
  // Class and vendor specific descriptors

  /** How many bytes of such descriptors follow; None when one of them is too short,
      or, where the length is checked, too long. */
  function Skip(mem: Memory, pos: nat, size: int, checked: bool): Option<nat>
    decreases if size < 0 then 0 else size
  {
    if size < DESC_HEADER_LENGTH then Some(0)
    else if At(mem, pos) < 2 || (checked && At(mem, pos) > size) then None
    else if Proper(At(mem, pos + 1)) then Some(0)
    else match Skip(mem, pos + At(mem, pos), size - At(mem, pos), checked)
      case None => None
      case Some(n) => Some(At(mem, pos) + n)
  }

  /** The skipping loop.  The buffer advances by what the size loses. */
  method SkipExtra(mem: Memory, start: nat, room: int, checked: bool)
      returns (ok: bool, buffer: nat, size: int)
    ensures ok <==> Skip(mem, start, room, checked).Some?
    ensures ok ==> buffer == start + Skip(mem, start, room, checked).value && buffer - start == room - size
  {
    buffer, size := start, room;
    while size >= DESC_HEADER_LENGTH
      invariant buffer >= start && buffer - start == room - size
      invariant Skip(mem, start, room, checked)
             == match Skip(mem, buffer, size, checked)
                case None => None
                case Some(n) => Some(buffer - start + n)
      decreases size
    {
      var header := ParseHeader(mem, buffer);
      if header.length < 2 || (checked && header.length > size) {
        return false, buffer, size;
      }
      if Proper(header.kind) {
        break;
      }
      buffer := buffer + header.length;
      size := size - header.length;
    }
    ok := true;
  }

  /** A concatenation of descriptors of other types. */
  predicate Foreign(extra: seq<Byte>) {
    extra == [] ||
    (|extra| >= 2 && 2 <= extra[0] <= |extra| && !Proper(extra[1]) && Foreign(extra[extra[0]..]))
  }

  /** Where skipping stops. */
  ghost predicate Stops(mem: Memory, pos: nat, size: int) {
    size < 2 || (2 <= At(mem, pos) <= size && Proper(At(mem, pos + 1)))
  }

  lemma {:induction false} SkipsForeign(mem: Memory, pos: nat, size: int, extra: seq<Byte>, checked: bool)
    requires Foreign(extra) && Holds(mem, pos, extra) && |extra| <= size
    requires Stops(mem, pos + |extra|, size - |extra|)
    ensures Skip(mem, pos, size, checked) == Some(|extra|)
    decreases |extra|
  {
    if extra != [] {
      assert At(mem, pos) == extra[0] && At(mem, pos + 1) == extra[1];
      var rest := extra[extra[0]..];
      assert forall i :: 0 <= i < |rest| ==> rest[i] == extra[extra[0] + i];
      SkipsForeign(mem, pos + extra[0], size - extra[0], rest, checked);
    }
  }

  lemma {:induction false} HeldBytes(mem: Memory, pos: nat, s: seq<Byte>)
    requires Holds(mem, pos, s)
    ensures Bytes(mem, pos, |s|) == s
    decreases |s|
  {
    if s != [] {
      assert [s[0]] + s[1..] == s;
      HoldsBoth(mem, pos, [s[0]], s[1..]);
      HeldBytes(mem, pos + 1, s[1..]);
    }
  }

  // ---------------------------------------------------------------------
  // parse_endpoint

  /** The fields of an endpoint that its length says are there; the others stay 0. */
  function ReadEndpoint(mem: Memory, pos: nat, big: bool): EndpointFields {
    if At(mem, pos) < ENDPOINT_DESC_LENGTH then NO_FIELDS
    else EndpointFields(At(mem, pos), At(mem, pos + 1), At(mem, pos + 2), At(mem, pos + 3),
                        Word(mem, pos + 4, big), At(mem, pos + 6),
                        if At(mem, pos) >= ENDPOINT_AUDIO_DESC_LENGTH then At(mem, pos + 7) else 0,
                        if At(mem, pos) >= ENDPOINT_AUDIO_DESC_LENGTH then At(mem, pos + 8) else 0)
  }

  function EndpointAt(mem: Memory, pos: nat, size: int, big: bool): Outcome<Endpoint> {
    var n := At(mem, pos);
    if n > size then Failed(ERROR_IO)
    else if At(mem, pos + 1) != ENDPOINT then Parsed(ZERO_ENDPOINT, 0)
    else match Skip(mem, pos + n, size - n, false)
      case None => Failed(ERROR_IO)
      case Some(m) => Parsed(Endpoint(ReadEndpoint(mem, pos, big), Bytes(mem, pos + n, m)), n + m)
  }

  method ReadEndpointFields(mem: Memory, buffer: nat, big: bool) returns (endpoint: EndpointFields)
    ensures endpoint == ReadEndpoint(mem, buffer, big)
  {
    hide At, Decode, Offset;
    endpoint := NO_FIELDS;
    if At(mem, buffer) >= ENDPOINT_AUDIO_DESC_LENGTH {
      var f, _ := ParseDescriptor(mem, buffer, "bbbbwbbb", big);
      DecodeAt(mem, buffer, "bbbbwbbb", big, 4);
      endpoint := EndpointFields(f[0], f[1], f[2], f[3], f[4], f[5], f[6], f[7]);
    } else if At(mem, buffer) >= ENDPOINT_DESC_LENGTH {
      var f, _ := ParseDescriptor(mem, buffer, "bbbbwb", big);
      DecodeAt(mem, buffer, "bbbbwb", big, 4);
      endpoint := EndpointFields(f[0], f[1], f[2], f[3], f[4], f[5], 0, 0);
    }
  }

  /** parse_endpoint, for an endpoint that was cleared before.  A result that is not
      negative is the distance that the buffer advanced and the size went down. */
  method ParseEndpoint(mem: Memory, start: nat, room: int, big: bool)
      returns (result: Outcome<Endpoint>, buffer: nat, size: int)
    ensures result == EndpointAt(mem, start, room, big)
    ensures result.Parsed? ==> buffer == start + result.used && size == room - result.used
  {
    buffer, size := start, room;
    var header := ParseHeader(mem, start);
    if header.length > room {
      return Failed(-1), start, room;
    }
    if header.kind != ENDPOINT {
      return Parsed(ZERO_ENDPOINT, 0), start, room;
    }
    var endpoint := ReadEndpointFields(mem, start, big);
    var begin := start + header.length;
    var ok, end, left := SkipExtra(mem, begin, room - header.length, false);
    if !ok {
      return Failed(-1), start, room;
    }
    var len := end - begin;
    if len == 0 {
      return Parsed(Endpoint(endpoint, []), header.length), end, left;
    }
    result := Parsed(Endpoint(endpoint, Bytes(mem, begin, len)), header.length + len);
    buffer, size := end, left;
  }

  /** The endpoints of an interface, as many as it announces. */
  function EndpointsAt(mem: Memory, pos: nat, size: int, n: nat, big: bool): Outcome<seq<Endpoint>>
    decreases n
  {
    if n == 0 then Parsed([], 0)
    else match EndpointAt(mem, pos, size, big)
      case Failed(code) => Failed(code)
      case Parsed(e, u) =>
        Ahead([e], u, EndpointsAt(mem, pos + u, size - u, n - 1, big))
  }

  /** What has been parsed already, in front of what is still to come. */
  function Ahead<T>(done: seq<T>, used: nat, rest: Outcome<seq<T>>): Outcome<seq<T>> {
    match rest
    case Failed(code) => Failed(code)
    case Parsed(more, u) => Parsed(done + more, used + u)
  }

  lemma AheadNone<T>(rest: Outcome<seq<T>>)
    ensures Ahead([], 0, rest) == rest
  {
    if rest.Parsed? {
      assert [] + rest.value == rest.value;
    }
  }

  lemma AheadEnd<T>(done: seq<T>, used: nat)
    ensures Ahead(done, used, Parsed([], 0)) == Parsed(done, used)
  {
    assert done + [] == done;
  }

  lemma AheadTwice<T>(a: seq<T>, u: nat, b: seq<T>, v: nat, rest: Outcome<seq<T>>)
    ensures Ahead(a, u, Ahead(b, v, rest)) == Ahead(a + b, u + v, rest)
  {
    if rest.Parsed? {
      assert a + (b + rest.value) == (a + b) + rest.value;
    }
  }

  /** The body of the endpoint loop of parse_interface. */
  method ParseNextEndpoint(mem: Memory, at: nat, left: int, ghost n: nat, big: bool) returns (r: Outcome<Endpoint>)
    requires n > 0
    ensures r.Failed? ==> EndpointsAt(mem, at, left, n, big) == Failed(r.code)
    ensures r.Parsed? ==>
              EndpointsAt(mem, at, left, n, big)
              == Ahead([r.value], r.used, EndpointsAt(mem, at + r.used, left - r.used, n - 1, big))
  {
    hide At;
    var header := ParseHeader(mem, at);
    if header.length > left {
      return Failed(ERROR_IO);
    }
    var parsed, _, _ := ParseEndpoint(mem, at, left, big);
    r := parsed;
  }

  method ParseEndpoints(mem: Memory, start: nat, room: int, n: nat, big: bool)
      returns (result: Outcome<seq<Endpoint>>, buffer: nat, size: int)
    ensures result == EndpointsAt(mem, start, room, n, big)
    ensures result.Parsed? ==> |result.value| == n && buffer == start + result.used && size == room - result.used
  {
    hide At, EndpointAt;
    var endpoint := seq(n, _ => ZERO_ENDPOINT);
    var at: nat, left: int, parsed: nat := start, room, 0;
    var i := 0;
    ghost var all := EndpointsAt(mem, start, room, n, big);
    AheadNone(all);
    while i < n
      invariant 0 <= i <= n == |endpoint| && at == start + parsed && left == room - parsed
      invariant all == Ahead(endpoint[..i], parsed, EndpointsAt(mem, at, left, n - i, big))
    {
      var r := ParseNextEndpoint(mem, at, left, n - i, big);
      if r.Failed? {
        return Failed(r.code), at, left;
      }
      ghost var done, used := endpoint[..i], parsed;
      endpoint := endpoint[i := r.value];
      at, parsed, left := at + r.used, parsed + r.used, left - r.used;
      i := i + 1;
      AheadTwice(done, used, [r.value], r.used, EndpointsAt(mem, at, left, n - i, big));
      assert endpoint[..i] == done + [r.value];
    }
    assert endpoint[..i] == endpoint;
    AheadEnd(endpoint, parsed);
    result := Parsed(endpoint, parsed);
    buffer, size := at, left;
  }

  // ---------------------------------------------------------------------
  // parse_interface

  function ReadInterface(mem: Memory, pos: nat): InterfaceFields {
    InterfaceFields(At(mem, pos), At(mem, pos + 1), At(mem, pos + 2), At(mem, pos + 3), At(mem, pos + 4),
               At(mem, pos + 5), At(mem, pos + 6), At(mem, pos + 7), At(mem, pos + 8))
  }

  /** An alternate setting without its endpoints. */
  function AltHeadAt(mem: Memory, pos: nat, size: int): Outcome<AltSetting> {
    var n := At(mem, pos);
    match Skip(mem, pos + n, size - n, false)
    case None => Failed(ERROR_IO)
    case Some(m) => Parsed(AltSetting(ReadInterface(mem, pos), Bytes(mem, pos + n, m), []), n + m)
  }

  /** An alternate setting, and whether it is the last of its interface. */
  datatype Setting = Setting(alt: AltSetting, last: bool)

  /** One that is followed by a configuration or device descriptor comes without
      endpoints, whatever it announces, and is the last. */
  function AltAt(mem: Memory, pos: nat, size: int, big: bool): Outcome<Setting> {
    match AltHeadAt(mem, pos, size)
    case Failed(code) => Failed(code)
    case Parsed(alt, u) => AltRestAt(mem, pos + u, size - u, big, alt, u)
  }

  function AltRestAt(mem: Memory, pos: nat, size: int, big: bool, alt: AltSetting, u: nat): Outcome<Setting> {
    if size >= DESC_HEADER_LENGTH && (At(mem, pos + 1) == CONFIG || At(mem, pos + 1) == DEVICE) then
      Parsed(Setting(alt, true), u)
    else if alt.head.numEndpoints > MAX_ENDPOINTS then Failed(ERROR_IO)
    else match EndpointsAt(mem, pos, size, alt.head.numEndpoints, big)
      case Failed(code) => Failed(code)
      case Parsed(es, v) => Parsed(Setting(alt.(endpoints := es), NoAlternate(mem, pos + v, size - v)), u + v)
  }

  /** What comes next is not another setting of the same interface. */
  predicate NoAlternate(mem: Memory, pos: nat, size: int) {
    size < INTERFACE_DESC_LENGTH || At(mem, pos + 1) != INTERFACE || At(mem, pos + 3) == 0
  }

  /** No setting is parsed from no bytes: with a header of length 0 the same header is
      looked at once more, as one of a descriptor to skip, and refused. */
  lemma AltTakesBytes(mem: Memory, pos: nat, size: int, big: bool)
    requires size >= INTERFACE_DESC_LENGTH
    ensures AltAt(mem, pos, size, big).Parsed? ==> AltAt(mem, pos, size, big).used > 0
  {
  }

  /** The alternate settings of an interface. */
  function AltsAt(mem: Memory, pos: nat, size: int, big: bool): Outcome<seq<AltSetting>>
    decreases if size < 0 then 0 else size
  {
    if size < INTERFACE_DESC_LENGTH then Parsed([], 0)
    else match AltAt(mem, pos, size, big)
      case Failed(code) => Failed(code)
      case Parsed(Setting(alt, last), u) =>
        if last then Parsed([alt], u) else Ahead([alt], u, AltsAt(mem, pos + u, size - u, big))
  }

  method ReadInterfaceFields(mem: Memory, buffer: nat) returns (ifp: InterfaceFields)
    ensures ifp == ReadInterface(mem, buffer)
  {
    hide At, Decode, Offset;
    var f, _ := ParseDescriptor(mem, buffer, "bbbbbbbbb", false);
    DecodeAt(mem, buffer, "bbbbbbbbb", false, 9);
    ifp := InterfaceFields(f[0], f[1], f[2], f[3], f[4], f[5], f[6], f[7], f[8]);
  }

  /** The head of an alternate setting and what is skipped behind it. */
  method ParseAltHead(mem: Memory, start: nat, room: int)
      returns (result: Outcome<AltSetting>, buffer: nat, size: int)
    ensures result == AltHeadAt(mem, start, room)
    ensures result.Parsed? ==> buffer == start + result.used && size == room - result.used
  {
    hide At, Skip;
    var fields := ReadInterfaceFields(mem, start);
    var ifp := AltSetting(fields, [], []);
    buffer := start + fields.length;
    var parsed := fields.length;
    size := room - fields.length;
    var begin := buffer;
    var ok;
    ok, buffer, size := SkipExtra(mem, begin, size, false);
    if !ok {
      return Failed(ERROR_IO), start, room;
    }
    parsed := parsed + (buffer - begin);
    var len := buffer - begin;
    if len != 0 {
      ifp := ifp.(extra := Bytes(mem, begin, len));
    }
    result := Parsed(ifp, parsed);
  }

  /** What follows the head: an unexpected descriptor, or the endpoints. */
  method ParseAltRest(mem: Memory, start: nat, room: int, big: bool, alt: AltSetting, before: nat)
      returns (result: Outcome<Setting>, buffer: nat, size: int)
    ensures result == AltRestAt(mem, start, room, big, alt, before)
    ensures result.Parsed? ==> buffer - start == room - size == result.used - before
  {
    hide At, EndpointsAt;
    buffer, size := start, room;
    if size >= DESC_HEADER_LENGTH {
      var header := ParseHeader(mem, buffer);
      if header.kind == CONFIG || header.kind == DEVICE {
        return Parsed(Setting(alt, true), before), buffer, size;
      }
    }
    if alt.head.numEndpoints > MAX_ENDPOINTS {
      return Failed(ERROR_IO), start, room;
    }
    var r;
    r, buffer, size := ParseEndpoints(mem, buffer, size, alt.head.numEndpoints, big);
    if r.Failed? {
      return Failed(r.code), start, room;
    }
    result := Parsed(Setting(alt.(endpoints := r.value), NoAlternate(mem, buffer, size)), before + r.used);
  }

  /** The body of the loop of parse_interface. */
  method ParseAlt(mem: Memory, start: nat, room: int, big: bool)
      returns (result: Outcome<Setting>, buffer: nat, size: int)
    ensures result == AltAt(mem, start, room, big)
    ensures result.Parsed? ==> buffer == start + result.used && size == room - result.used
  {
    var head;
    head, buffer, size := ParseAltHead(mem, start, room);
    if head.Failed? {
      return Failed(head.code), start, room;
    }
    result, buffer, size := ParseAltRest(mem, buffer, size, big, head.value, head.used);
  }

  lemma AltsStep(mem: Memory, pos: nat, size: int, big: bool, r: Outcome<Setting>)
    requires size >= INTERFACE_DESC_LENGTH && r == AltAt(mem, pos, size, big)
    ensures r.Failed? ==> AltsAt(mem, pos, size, big) == Failed(r.code)
    ensures r.Parsed? ==> r.used > 0
    ensures r.Parsed? && r.value.last ==> AltsAt(mem, pos, size, big) == Parsed([r.value.alt], r.used)
    ensures r.Parsed? && !r.value.last ==>
              AltsAt(mem, pos, size, big) == Ahead([r.value.alt], r.used, AltsAt(mem, pos + r.used, size - r.used, big))
  {
    hide At, AltAt;
    AltTakesBytes(mem, pos, size, big);
  }

  /** One round of that loop, against AltsAt. */
  method ParseNextAlt(mem: Memory, at: nat, left: int, big: bool)
      returns (r: Outcome<Setting>, buffer: nat, size: int)
    requires left >= INTERFACE_DESC_LENGTH
    ensures r.Failed? ==> AltsAt(mem, at, left, big) == Failed(r.code)
    ensures r.Parsed? ==> r.used > 0 && buffer == at + r.used && size == left - r.used
    ensures r.Parsed? && r.value.last ==> AltsAt(mem, at, left, big) == Parsed([r.value.alt], r.used)
    ensures r.Parsed? && !r.value.last ==>
              AltsAt(mem, at, left, big) == Ahead([r.value.alt], r.used, AltsAt(mem, buffer, size, big))
  {
    hide At, AltAt, AltsAt;
    r, buffer, size := ParseAlt(mem, at, left, big);
    AltsStep(mem, at, left, big, r);
  }

  method ParseInterface(mem: Memory, start: nat, room: int, big: bool)
      returns (result: Outcome<seq<AltSetting>>, buffer: nat, size: int)
    ensures result == AltsAt(mem, start, room, big)
    ensures result.Parsed? ==> buffer == start + result.used && size == room - result.used
  {
    hide At, AltAt;
    var altsetting: seq<AltSetting> := [];
    var parsed: nat := 0;
    buffer, size := start, room;
    ghost var all := AltsAt(mem, start, room, big);
    AheadNone(all);
    while size >= INTERFACE_DESC_LENGTH
      invariant buffer == start + parsed && size == room - parsed
      invariant all == Ahead(altsetting, parsed, AltsAt(mem, buffer, size, big))
      decreases size
    {
      var r;
      r, buffer, size := ParseNextAlt(mem, buffer, size, big);
      if r.Failed? {
        return Failed(r.code), start, room;
      }
      AheadTwice(altsetting, parsed, [r.value.alt], r.used, AltsAt(mem, buffer, size, big));
      altsetting := altsetting + [r.value.alt];
      parsed := parsed + r.used;
      if r.value.last {
        return Parsed(altsetting, parsed), buffer, size;
      }
    }
    AheadEnd(altsetting, parsed);
    result := Parsed(altsetting, parsed);
  }

  // ---------------------------------------------------------------------
  // parse_configuration

  function ReadConfiguration(mem: Memory, pos: nat, big: bool): ConfigurationFields {
    ConfigurationFields(At(mem, pos), At(mem, pos + 1), Word(mem, pos + 2, big), At(mem, pos + 4), At(mem, pos + 5),
                  At(mem, pos + 6), At(mem, pos + 7), At(mem, pos + 8))
  }

  method ReadConfigurationFields(mem: Memory, buffer: nat, big: bool) returns (config: ConfigurationFields)
    ensures config == ReadConfiguration(mem, buffer, big)
  {
    hide At, Decode, Offset;
    var f, _ := ParseDescriptor(mem, buffer, "bbwbbbbb", big);
    DecodeAt(mem, buffer, "bbwbbbbb", big, 2);
    config := ConfigurationFields(f[0], f[1], f[2], f[3], f[4], f[5], f[6], f[7]);
  }

  /** What InterfacesAt still has to deliver, behind the interfaces already there. */
  function Behind(done: seq<seq<AltSetting>>, used: nat, rest: Outcome<Content>): Outcome<Content> {
    match rest
    case Failed(code) => Failed(code)
    case Parsed(Content(e, more), u) => Parsed(Content(e, done + more), used + u)
  }

  /** Only the first run of extra bytes is kept. */
  function FirstExtra(mem: Memory, pos: nat, n: nat, extra: seq<Byte>): seq<Byte> {
    if extra == [] then Bytes(mem, pos, n) else extra
  }

  /** The settings of an interface and how many bytes were skipped in front of it. */
  datatype Section = Section(skipped: nat, alts: seq<AltSetting>)

  function SectionAt(mem: Memory, pos: nat, size: int, big: bool): Outcome<Section> {
    match Skip(mem, pos, size, true)
    case None => Failed(ERROR_IO)
    case Some(m) =>
      match AltsAt(mem, pos + m, size - m, big)
      case Failed(code) => Failed(code)
      case Parsed(alts, u) => Parsed(Section(m, alts), m + u)
  }

  datatype Content = Content(extra: seq<Byte>, interfaces: seq<seq<AltSetting>>)

  /** The interfaces and the extra bytes of a configuration. */
  function InterfacesAt(mem: Memory, pos: nat, size: int, n: nat, extra: seq<Byte>, big: bool): Outcome<Content>
    decreases n
  {
    if n == 0 then Parsed(Content(extra, []), 0)
    else match SectionAt(mem, pos, size, big)
      case Failed(code) => Failed(code)
      case Parsed(s, u) =>
        Behind([s.alts], u, InterfacesAt(mem, pos + u, size - u, n - 1, FirstExtra(mem, pos, s.skipped, extra), big))
  }

  /** A configuration and the number of bytes left, which can be negative. */
  datatype Reading = Reading(config: Configuration, left: int)

  function Complete(c: ConfigurationFields, r: Outcome<Content>): Outcome<Reading> {
    match r
    case Failed(code) => Failed(code)
    case Parsed(Content(extra, interfaces), u) =>
      Parsed(Reading(Configuration(c, extra, interfaces), c.totalLength - c.length - u), c.length + u)
  }

  function ContentAt(mem: Memory, c: ConfigurationFields, pos: nat, big: bool): Outcome<Reading> {
    if c.numInterfaces > MAX_INTERFACES then Failed(ERROR_IO)
    else Complete(c, InterfacesAt(mem, pos + c.length, c.totalLength - c.length, c.numInterfaces, [], big))
  }

  function ConfigurationAt(mem: Memory, pos: nat, big: bool): Outcome<Reading> {
    ContentAt(mem, ReadConfiguration(mem, pos, big), pos, big)
  }

  lemma BehindNone(rest: Outcome<Content>)
    ensures Behind([], 0, rest) == rest
  {
    if rest.Parsed? {
      assert [] + rest.value.interfaces == rest.value.interfaces;
    }
  }

  lemma BehindTwice(done: seq<seq<AltSetting>>, used: nat, alts: seq<AltSetting>, u: nat, rest: Outcome<Content>)
    ensures Behind(done, used, Behind([alts], u, rest)) == Behind(done + [alts], used + u, rest)
  {
    if rest.Parsed? {
      var more := rest.value.interfaces;
      assert done + ([alts] + more) == (done + [alts]) + more;
    }
  }

  /** The body of the loop of parse_configuration. */
  method ParseSection(mem: Memory, at: nat, left: int, extra: seq<Byte>, big: bool)
      returns (r: Outcome<Section>, extra': seq<Byte>, buffer: nat, size: int)
    ensures r == SectionAt(mem, at, left, big)
    ensures r.Parsed? ==> buffer == at + r.used && size == left - r.used
    ensures r.Parsed? ==> extra' == FirstExtra(mem, at, r.value.skipped, extra)
  {
    hide At, Skip, AltsAt;
    var ok;
    extra' := extra;
    ok, buffer, size := SkipExtra(mem, at, left, true);
    if !ok {
      return Failed(ERROR_IO), extra, at, left;
    }
    var len := buffer - at;
    if len != 0 {
      if |extra| == 0 {
        extra' := Bytes(mem, at, len);
      }
    }
    var alts;
    alts, buffer, size := ParseInterface(mem, buffer, size, big);
    if alts.Failed? {
      return Failed(alts.code), extra, at, left;
    }
    r := Parsed(Section(len, alts.value), len + alts.used);
  }

  /** The loop of parse_configuration. */
  method ParseSections(mem: Memory, start: nat, room: int, n: nat, big: bool)
      returns (result: Outcome<Content>, buffer: nat, size: int)
    ensures result == InterfacesAt(mem, start, room, n, [], big)
    ensures result.Parsed? ==> buffer == start + result.used && size == room - result.used
  {
    hide At, SectionAt;
    var interfaces: seq<seq<AltSetting>> := [];
    var extra: seq<Byte> := [];
    buffer, size := start, room;
    var i := 0;
    ghost var all := InterfacesAt(mem, start, room, n, [], big);
    BehindNone(all);
    while i < n
      invariant 0 <= i <= n && buffer >= start && buffer - start == room - size
      invariant all == Behind(interfaces, buffer - start, InterfacesAt(mem, buffer, size, n - i, extra, big))
    {
      var r;
      ghost var used := buffer - start;
      r, extra, buffer, size := ParseSection(mem, buffer, size, extra, big);
      if r.Failed? {
        return Failed(r.code), start, room;
      }
      i := i + 1;
      BehindTwice(interfaces, used, r.value.alts, r.used, InterfacesAt(mem, buffer, size, n - i, extra, big));
      interfaces := interfaces + [r.value.alts];
    }
    assert interfaces + [] == interfaces;
    result := Parsed(Content(extra, interfaces), buffer - start);
  }

  /** The result is negative on errors and otherwise the number of bytes left; what is
      left and what the buffer has advanced add up to the announced total length. */
  method ParseConfiguration(mem: Memory, start: nat, big: bool) returns (result: Outcome<Reading>, buffer: nat)
    ensures result == ConfigurationAt(mem, start, big)
    ensures result.Parsed? ==> buffer == start + result.used
    ensures result.Parsed? ==> result.used + result.value.left == ReadConfiguration(mem, start, big).totalLength
  {
    hide ContentAt, At;
    var config := ReadConfigurationFields(mem, start, big);
    result, buffer := ParseContent(mem, config, start, big);
  }

  /** The same behind the fields of the configuration itself. */
  method ParseContent(mem: Memory, config: ConfigurationFields, start: nat, big: bool)
      returns (result: Outcome<Reading>, buffer: nat)
    ensures result == ContentAt(mem, config, start, big)
    ensures result.Parsed? ==> buffer == start + result.used
    ensures result.Parsed? ==> result.used + result.value.left == config.totalLength
  {
    hide At, InterfacesAt, SectionAt;
    buffer := start;
    var size: int := config.totalLength;
    if config.numInterfaces > MAX_INTERFACES {
      return Failed(ERROR_IO), start;
    }
    buffer := buffer + config.length;
    size := size - config.length;
    var r;
    r, buffer, size := ParseSections(mem, buffer, size, config.numInterfaces, big);
    if r.Failed? {
      return Failed(r.code), start;
    }
    result := Parsed(Reading(Configuration(config, r.value.extra, r.value.interfaces), size), buffer - start);
  }

  // ---------------------------------------------------------------------
  // A well-formed configuration, and the bytes in which it is held

  predicate WellFormedEndpoint(e: Endpoint) {
    var h := e.head;
    && ENDPOINT_DESC_LENGTH <= h.length < 256 && h.kind == ENDPOINT && Foreign(e.extra)
    && h.address < 256 && h.attributes < 256 && h.maxPacketSize < 65536 && h.interval < 256
    && h.refresh < 256 && h.synchAddress < 256
    && (h.length < ENDPOINT_AUDIO_DESC_LENGTH ==> h.refresh == 0 && h.synchAddress == 0)
  }

  predicate WellFormedAlt(a: AltSetting) {
    var h := a.head;
    && INTERFACE_DESC_LENGTH <= h.length < 256 && h.kind == INTERFACE && Foreign(a.extra)
    && h.number < 256 && h.alternate < 256 && h.class_ < 256 && h.subclass < 256 && h.protocol < 256 && h.index < 256
    && h.numEndpoints == |a.endpoints| <= MAX_ENDPOINTS
    && forall i :: 0 <= i < |a.endpoints| ==> WellFormedEndpoint(a.endpoints[i])
  }

  /** At least one setting; all but the first are alternate ones. */
  predicate WellFormedInterface(alts: seq<AltSetting>) {
    && alts != []
    && (forall i :: 0 <= i < |alts| ==> WellFormedAlt(alts[i]))
    && (forall i :: 0 < i < |alts| ==> alts[i].head.alternate != 0)
  }

  function EndpointSize(e: Endpoint): nat { e.head.length + |e.extra| }

  function EndpointsSize(es: seq<Endpoint>): nat {
    if es == [] then 0 else EndpointSize(es[0]) + EndpointsSize(es[1..])
  }

  function AltSize(a: AltSetting): nat { a.head.length + |a.extra| + EndpointsSize(a.endpoints) }

  function AltsSize(alts: seq<AltSetting>): nat {
    if alts == [] then 0 else AltSize(alts[0]) + AltsSize(alts[1..])
  }

  function InterfacesSize(s: seq<seq<AltSetting>>): nat {
    if s == [] then 0 else AltsSize(s[0]) + InterfacesSize(s[1..])
  }

  /** The counts and lengths are right, every interface but the first starts with
      setting 0, and there are extra bytes only in front of an interface. */
  predicate WellFormed(c: Configuration) {
    var h := c.head;
    && CONFIG_DESC_LENGTH <= h.length < 256 && h.kind < 256 && h.value < 256 && h.index < 256
    && h.attributes < 256 && h.maxPower < 256
    && h.numInterfaces == |c.interfaces| <= MAX_INTERFACES
    && h.totalLength == h.length + |c.extra| + InterfacesSize(c.interfaces) < 65536
    && Foreign(c.extra) && (c.interfaces == [] ==> c.extra == [])
    && (forall i :: 0 <= i < |c.interfaces| ==> WellFormedInterface(c.interfaces[i]))
    && (forall i :: 0 < i < |c.interfaces| ==> c.interfaces[i][0].head.alternate == 0)
  }

  ghost predicate HoldsEndpoint(mem: Memory, pos: nat, e: Endpoint, big: bool) {
    ReadEndpoint(mem, pos, big) == e.head && Holds(mem, pos + e.head.length, e.extra)
  }

  ghost predicate HoldsEndpoints(mem: Memory, pos: nat, es: seq<Endpoint>, big: bool)
    decreases |es|
  {
    es == [] || (HoldsEndpoint(mem, pos, es[0], big) && HoldsEndpoints(mem, pos + EndpointSize(es[0]), es[1..], big))
  }

  ghost predicate HoldsAlt(mem: Memory, pos: nat, a: AltSetting, big: bool) {
    && ReadInterface(mem, pos) == a.head
    && Holds(mem, pos + a.head.length, a.extra)
    && HoldsEndpoints(mem, pos + a.head.length + |a.extra|, a.endpoints, big)
  }

  ghost predicate HoldsAlts(mem: Memory, pos: nat, alts: seq<AltSetting>, big: bool)
    decreases |alts|
  {
    alts == [] || (HoldsAlt(mem, pos, alts[0], big) && HoldsAlts(mem, pos + AltSize(alts[0]), alts[1..], big))
  }

  ghost predicate HoldsInterfaces(mem: Memory, pos: nat, s: seq<seq<AltSetting>>, big: bool)
    decreases |s|
  {
    s == [] || (HoldsAlts(mem, pos, s[0], big) && HoldsInterfaces(mem, pos + AltsSize(s[0]), s[1..], big))
  }

  ghost predicate HoldsConfiguration(mem: Memory, pos: nat, c: Configuration, big: bool) {
    && ReadConfiguration(mem, pos, big) == c.head
    && Holds(mem, pos + c.head.length, c.extra)
    && HoldsInterfaces(mem, pos + c.head.length + |c.extra|, c.interfaces, big)
  }

  // ---------------------------------------------------------------------
  // Parsing what is held

  lemma EndpointParsed(mem: Memory, pos: nat, size: int, e: Endpoint, big: bool)
    requires WellFormedEndpoint(e) && HoldsEndpoint(mem, pos, e, big) && EndpointSize(e) <= size
    requires Stops(mem, pos + EndpointSize(e), size - EndpointSize(e))
    ensures EndpointAt(mem, pos, size, big) == Parsed(e, EndpointSize(e))
  {
    SkipsForeign(mem, pos + e.head.length, size - e.head.length, e.extra, false);
    HeldBytes(mem, pos + e.head.length, e.extra);
  }

  /** Skipping stops in front of endpoints. */
  lemma EndpointsStop(mem: Memory, pos: nat, size: int, es: seq<Endpoint>, big: bool)
    requires es != [] ==> WellFormedEndpoint(es[0])
    requires HoldsEndpoints(mem, pos, es, big) && EndpointsSize(es) <= size
    requires es == [] ==> Stops(mem, pos, size)
    ensures Stops(mem, pos, size)
  {
  }

  lemma EndpointsStep(mem: Memory, pos: nat, size: int, e: Endpoint, big: bool, es: seq<Endpoint>, v: nat)
    requires WellFormedEndpoint(e) && HoldsEndpoint(mem, pos, e, big) && EndpointSize(e) <= size
    requires Stops(mem, pos + EndpointSize(e), size - EndpointSize(e))
    requires EndpointsAt(mem, pos + EndpointSize(e), size - EndpointSize(e), |es|, big) == Parsed(es, v)
    ensures EndpointsAt(mem, pos, size, |es| + 1, big) == Parsed([e] + es, EndpointSize(e) + v)
  {
    EndpointParsed(mem, pos, size, e, big);
  }

  lemma {:induction false} EndpointsParsed(mem: Memory, pos: nat, size: int, es: seq<Endpoint>, big: bool)
    requires forall i :: 0 <= i < |es| ==> WellFormedEndpoint(es[i])
    requires HoldsEndpoints(mem, pos, es, big) && EndpointsSize(es) <= size
    requires Stops(mem, pos + EndpointsSize(es), size - EndpointsSize(es))
    ensures EndpointsAt(mem, pos, size, |es|, big) == Parsed(es, EndpointsSize(es))
    decreases |es|
  {
    hide At, EndpointAt, HoldsEndpoint, Skip;
    if es != [] {
      var n, rest := EndpointSize(es[0]), es[1..];
      EndpointsParsed(mem, pos + n, size - n, rest, big);
      EndpointsStop(mem, pos + n, size - n, rest, big);
      EndpointsStep(mem, pos, size, es[0], big, rest, EndpointsSize(rest));
      assert [es[0]] + rest == es;
    }
  }

  lemma AltHeadParsed(mem: Memory, pos: nat, size: int, a: AltSetting, big: bool)
    requires WellFormedAlt(a) && HoldsAlt(mem, pos, a, big) && AltSize(a) <= size
    requires Stops(mem, pos + AltSize(a), size - AltSize(a))
    ensures AltHeadAt(mem, pos, size) == Parsed(a.(endpoints := []), a.head.length + |a.extra|)
  {
    hide At, Word, ReadEndpoint, HoldsEndpoints;
    var n := a.head.length;
    EndpointsStop(mem, pos + n + |a.extra|, size - n - |a.extra|, a.endpoints, big);
    SkipsForeign(mem, pos + n, size - n, a.extra, false);
    HeldBytes(mem, pos + n, a.extra);
  }

  lemma NotUnexpected(mem: Memory, pos: nat, size: int, es: seq<Endpoint>, big: bool)
    requires es != [] ==> WellFormedEndpoint(es[0])
    requires HoldsEndpoints(mem, pos, es, big)
    requires es == [] ==> size < DESC_HEADER_LENGTH || At(mem, pos + 1) == INTERFACE
    ensures size < DESC_HEADER_LENGTH || (At(mem, pos + 1) != CONFIG && At(mem, pos + 1) != DEVICE)
  {
  }

  /** The end of the buffer, or another interface descriptor. */
  ghost predicate AtInterface(mem: Memory, pos: nat, size: int) {
    size == 0 || (INTERFACE_DESC_LENGTH <= At(mem, pos) <= size && At(mem, pos + 1) == INTERFACE)
  }

  lemma AltParsed(mem: Memory, pos: nat, size: int, a: AltSetting, big: bool)
    requires WellFormedAlt(a) && HoldsAlt(mem, pos, a, big) && AltSize(a) <= size
    requires AtInterface(mem, pos + AltSize(a), size - AltSize(a))
    ensures AltAt(mem, pos, size, big)
         == Parsed(Setting(a, NoAlternate(mem, pos + AltSize(a), size - AltSize(a))), AltSize(a))
  {
    hide AltHeadAt, EndpointsAt, ReadInterface, Skip, HoldsEndpoints, NoAlternate;
    var u := a.head.length + |a.extra|;
    AltHeadParsed(mem, pos, size, a, big);
    EndpointsParsed(mem, pos + u, size - u, a.endpoints, big);
    NotUnexpected(mem, pos + u, size - u, a.endpoints, big);
  }

  /** Settings start with an interface descriptor. */
  lemma AltsStart(mem: Memory, pos: nat, size: int, alts: seq<AltSetting>, big: bool)
    requires alts != [] && WellFormedAlt(alts[0]) && HoldsAlts(mem, pos, alts, big) && AltsSize(alts) <= size
    ensures AtInterface(mem, pos, size) && size >= INTERFACE_DESC_LENGTH
    ensures At(mem, pos + 3) == alts[0].head.alternate
  {
  }

  lemma {:induction false} AltsParsed(mem: Memory, pos: nat, size: int, alts: seq<AltSetting>, big: bool)
    requires WellFormedInterface(alts) && HoldsAlts(mem, pos, alts, big) && AltsSize(alts) <= size
    requires AtInterface(mem, pos + AltsSize(alts), size - AltsSize(alts))
    requires NoAlternate(mem, pos + AltsSize(alts), size - AltsSize(alts))
    ensures AltsAt(mem, pos, size, big) == Parsed(alts, AltsSize(alts))
    decreases |alts|
  {
    hide At, AltAt, HoldsAlt, AltSize, WellFormedAlt;
    var n, rest := AltSize(alts[0]), alts[1..];
    AltsStart(mem, pos, size, alts, big);
    if rest != [] {
      AltsStart(mem, pos + n, size - n, rest, big);
      assert rest[0] == alts[1] && !NoAlternate(mem, pos + n, size - n);
      AltsParsed(mem, pos + n, size - n, rest, big);
    }
    AltParsed(mem, pos, size, alts[0], big);
    AltsStep(mem, pos, size, big, AltAt(mem, pos, size, big));
    assert AltsSize(alts) == n + AltsSize(rest);
    assert if rest == [] then alts == [alts[0]] else alts == [alts[0]] + rest;
  }

  /** Every interface but the first one starts with setting 0. */
  predicate InterfacesFollow(s: seq<seq<AltSetting>>) {
    forall i :: 0 <= i < |s| ==> WellFormedInterface(s[i]) && s[i][0].head.alternate == 0
  }

  /** At the end, or in front of an interface that starts with setting 0, the settings
      of an interface are over. */
  lemma InterfacesStart(mem: Memory, pos: nat, size: int, s: seq<seq<AltSetting>>, big: bool)
    requires InterfacesFollow(s) && HoldsInterfaces(mem, pos, s, big) && InterfacesSize(s) == size
    ensures AtInterface(mem, pos, size) && NoAlternate(mem, pos, size)
  {
    if s != [] {
      AltsStart(mem, pos, size, s[0], big);
    }
  }

  /** One interface behind the bytes to skip. */
  lemma SectionParsed(mem: Memory, pos: nat, size: int, extra: seq<Byte>, alts: seq<AltSetting>, big: bool)
    requires Foreign(extra) && Holds(mem, pos, extra)
    requires WellFormedInterface(alts) && HoldsAlts(mem, pos + |extra|, alts, big)
    requires |extra| + AltsSize(alts) <= size
    requires AtInterface(mem, pos + |extra| + AltsSize(alts), size - |extra| - AltsSize(alts))
    requires NoAlternate(mem, pos + |extra| + AltsSize(alts), size - |extra| - AltsSize(alts))
    ensures SectionAt(mem, pos, size, big) == Parsed(Section(|extra|, alts), |extra| + AltsSize(alts))
  {
    hide HoldsAlts, AltsAt, NoAlternate;
    AltsStart(mem, pos + |extra|, size - |extra|, alts, big);
    SkipsForeign(mem, pos, size, extra, true);
    AltsParsed(mem, pos + |extra|, size - |extra|, alts, big);
  }

  lemma {:induction false} InterfacesParsed(mem: Memory, pos: nat, size: int, s: seq<seq<AltSetting>>,
                                            extra: seq<Byte>, big: bool)
    requires InterfacesFollow(s) && HoldsInterfaces(mem, pos, s, big) && InterfacesSize(s) == size
    ensures InterfacesAt(mem, pos, size, |s|, extra, big) == Parsed(Content(extra, s), size)
    decreases |s|
  {
    hide At, SectionAt, AltsAt, HoldsAlts, AltsSize, WellFormedInterface, NoAlternate, AtInterface;
    if s != [] {
      var n, rest := AltsSize(s[0]), s[1..];
      InterfacesStart(mem, pos + n, size - n, rest, big);
      SectionParsed(mem, pos, size, [], s[0], big);
      InterfacesParsed(mem, pos + n, size - n, rest, extra, big);
      assert [s[0]] + rest == s;
    }
  }

  /** All interfaces, the extra bytes being in front of the first. */
  lemma ContentParsed(mem: Memory, pos: nat, extra: seq<Byte>, s: seq<seq<AltSetting>>, big: bool)
    requires s != [] && WellFormedInterface(s[0]) && InterfacesFollow(s[1..])
    requires Foreign(extra) && Holds(mem, pos, extra) && HoldsInterfaces(mem, pos + |extra|, s, big)
    ensures InterfacesAt(mem, pos, |extra| + InterfacesSize(s), |s|, [], big)
         == Parsed(Content(extra, s), |extra| + InterfacesSize(s))
  {
    hide At, Skip, SectionAt, AltsAt, HoldsAlts, AltsSize, WellFormedInterface, NoAlternate, AtInterface;
    var size, n := |extra| + InterfacesSize(s), |extra| + AltsSize(s[0]);
    InterfacesStart(mem, pos + n, size - n, s[1..], big);
    SectionParsed(mem, pos, size, extra, s[0], big);
    HeldBytes(mem, pos, extra);
    InterfacesParsed(mem, pos + n, size - n, s[1..], extra, big);
    assert [s[0]] + s[1..] == s;
  }

  /** A well-formed configuration that memory holds is what the parser reads, and no
      byte is left. */
  lemma HeldIsParsed(mem: Memory, pos: nat, c: Configuration, big: bool)
    requires WellFormed(c) && HoldsConfiguration(mem, pos, c, big)
    ensures ConfigurationAt(mem, pos, big) == Parsed(Reading(c, 0), c.head.totalLength)
  {
    hide At, Skip, SectionAt, AltsAt, HoldsAlts, AltsSize, ReadConfiguration, HoldsInterfaces, Foreign;
    if c.interfaces != [] {
      ContentParsed(mem, pos + c.head.length, c.extra, c.interfaces, big);
    }
  }

  // ---------------------------------------------------------------------
  // The serializer

  function Zeros(n: nat): (s: seq<Byte>)
    ensures |s| == n
  {
    if n == 0 then [] else [0] + Zeros(n - 1)
  }

  /** The fields of an endpoint in the order of table 9-13 of the specification, without
      the two that only audio endpoints have, or with them. */
  function EndpointValues(h: EndpointFields): seq<nat> {
    [h.length, h.kind, h.address, h.attributes, h.maxPacketSize, h.interval]
    + if h.length < ENDPOINT_AUDIO_DESC_LENGTH then [] else [h.refresh, h.synchAddress]
  }

  function EndpointFormat(h: EndpointFields): string {
    if h.length < ENDPOINT_AUDIO_DESC_LENGTH then "bbbbwb" else "bbbbwbbb"
  }

  function SerializeEndpoint(e: Endpoint, big: bool): seq<Byte>
    requires WellFormedEndpoint(e)
  {
    Encode(EndpointValues(e.head), EndpointFormat(e.head), big)
    + Zeros(e.head.length - if e.head.length < ENDPOINT_AUDIO_DESC_LENGTH then 7 else 9) + e.extra
  }

  function SerializeEndpoints(es: seq<Endpoint>, big: bool): seq<Byte>
    requires forall i :: 0 <= i < |es| ==> WellFormedEndpoint(es[i])
  {
    if es == [] then [] else SerializeEndpoint(es[0], big) + SerializeEndpoints(es[1..], big)
  }

  function InterfaceValues(h: InterfaceFields): seq<nat> {
    [h.length, h.kind, h.number, h.alternate, h.numEndpoints, h.class_, h.subclass, h.protocol, h.index]
  }

  function SerializeAlt(a: AltSetting, big: bool): seq<Byte>
    requires WellFormedAlt(a)
  {
    Encode(InterfaceValues(a.head), "bbbbbbbbb", false) + Zeros(a.head.length - INTERFACE_DESC_LENGTH) + a.extra
    + SerializeEndpoints(a.endpoints, big)
  }

  function SerializeAlts(alts: seq<AltSetting>, big: bool): seq<Byte>
    requires forall i :: 0 <= i < |alts| ==> WellFormedAlt(alts[i])
  {
    if alts == [] then [] else SerializeAlt(alts[0], big) + SerializeAlts(alts[1..], big)
  }

  function SerializeInterfaces(s: seq<seq<AltSetting>>, big: bool): seq<Byte>
    requires forall i :: 0 <= i < |s| ==> WellFormedInterface(s[i])
  {
    if s == [] then [] else
      assert WellFormedInterface(s[0]);
      SerializeAlts(s[0], big) + SerializeInterfaces(s[1..], big)
  }

  function ConfigurationValues(h: ConfigurationFields): seq<nat> {
    [h.length, h.kind, h.totalLength, h.numInterfaces, h.value, h.index, h.attributes, h.maxPower]
  }

  /** The bytes of a configuration; descriptors longer than their fields are filled up
      with zeros. */
  function Serialize(c: Configuration, big: bool): seq<Byte>
    requires WellFormed(c)
  {
    Encode(ConfigurationValues(c.head), "bbwbbbbb", big) + Zeros(c.head.length - CONFIG_DESC_LENGTH) + c.extra
    + SerializeInterfaces(c.interfaces, big)
  }

  /** The parts of a descriptor: its fields, some padding, what follows. */
  lemma HoldsParts(mem: Memory, pos: nat, fields: seq<nat>, format: string, big: bool, pad: nat,
                   rest: seq<Byte>, w: nat)
    requires |fields| == |format| && OneWord(format, w) && Fits(fields, format)
    requires Holds(mem, pos, Encode(fields, format, big) + Zeros(pad) + rest)
    ensures |Encode(fields, format, big)| == Offset(format, |format|)
    ensures Holds(mem, pos + Offset(format, |format|) + pad, rest)
    ensures forall k :: 0 <= k < |format| ==> fields[k] == OneWordField(mem, pos, k, w, big)
  {
    hide At, Word, Decode, Offset, Encode;
    HoldsBoth(mem, pos, Encode(fields, format, big) + Zeros(pad), rest);
    HoldsBoth(mem, pos, Encode(fields, format, big), Zeros(pad));
    DecodeInvertsEncode(mem, pos, fields, format, big);
    DecodeAt(mem, pos, format, big, w);
    assert Offset(format, |format|) + |Zeros(pad)| == Offset(format, |format|) + pad;
  }

  lemma EndpointHeld(mem: Memory, pos: nat, e: Endpoint, big: bool)
    requires WellFormedEndpoint(e) && Holds(mem, pos, SerializeEndpoint(e, big))
    ensures HoldsEndpoint(mem, pos, e, big) && |SerializeEndpoint(e, big)| == EndpointSize(e)
  {
    hide At, Word, Decode, Encode, Foreign, Holds;
    var h := e.head;
    var pad := h.length - if h.length < ENDPOINT_AUDIO_DESC_LENGTH then 7 else 9;
    HoldsParts(mem, pos, EndpointValues(h), EndpointFormat(h), big, pad, e.extra, 4);
    OneWordOffset(EndpointFormat(h), 4, |EndpointFormat(h)|);
    var v := EndpointValues(h);
    assert forall k :: 0 <= k < |EndpointFormat(h)| ==> v[k] == OneWordField(mem, pos, k, 4, big);
    assert v[0] == At(mem, pos) && v[1] == At(mem, pos + 1) && v[2] == At(mem, pos + 2) && v[3] == At(mem, pos + 3);
    assert v[4] == Word(mem, pos + 4, big) && v[5] == At(mem, pos + 6);
    if |v| == 8 {
      assert v[6] == At(mem, pos + 7) && v[7] == At(mem, pos + 8);
    }
  }

  lemma {:induction false} EndpointsHeld(mem: Memory, pos: nat, es: seq<Endpoint>, big: bool)
    requires forall i :: 0 <= i < |es| ==> WellFormedEndpoint(es[i])
    requires Holds(mem, pos, SerializeEndpoints(es, big))
    ensures HoldsEndpoints(mem, pos, es, big) && |SerializeEndpoints(es, big)| == EndpointsSize(es)
    decreases |es|
  {
    hide Holds, HoldsEndpoint, EndpointSize, SerializeEndpoint, WellFormedEndpoint;
    if es != [] {
      HoldsBoth(mem, pos, SerializeEndpoint(es[0], big), SerializeEndpoints(es[1..], big));
      EndpointHeld(mem, pos, es[0], big);
      EndpointsHeld(mem, pos + EndpointSize(es[0]), es[1..], big);
    }
  }

  lemma AltHeld(mem: Memory, pos: nat, a: AltSetting, big: bool)
    requires WellFormedAlt(a) && Holds(mem, pos, SerializeAlt(a, big))
    ensures HoldsAlt(mem, pos, a, big) && |SerializeAlt(a, big)| == AltSize(a)
  {
    hide At, Word, Decode, Encode, Foreign, Holds;
    hide SerializeEndpoints, HoldsEndpoints, EndpointsSize, WellFormedEndpoint;
    var h := a.head;
    var fields := Encode(InterfaceValues(h), "bbbbbbbbb", false);
    var pad, rest := h.length - INTERFACE_DESC_LENGTH, a.extra + SerializeEndpoints(a.endpoints, big);
    assert SerializeAlt(a, big) == fields + Zeros(pad) + rest;
    HoldsParts(mem, pos, InterfaceValues(h), "bbbbbbbbb", false, pad, rest, 9);
    OneWordOffset("bbbbbbbbb", 9, 9);
    HoldsBoth(mem, pos + h.length, a.extra, SerializeEndpoints(a.endpoints, big));
    EndpointsHeld(mem, pos + h.length + |a.extra|, a.endpoints, big);
    assert forall k :: 0 <= k < 9 ==> InterfaceValues(h)[k] == OneWordField(mem, pos, k, 9, false);
  }

  lemma {:induction false} AltsHeld(mem: Memory, pos: nat, alts: seq<AltSetting>, big: bool)
    requires forall i :: 0 <= i < |alts| ==> WellFormedAlt(alts[i])
    requires Holds(mem, pos, SerializeAlts(alts, big))
    ensures HoldsAlts(mem, pos, alts, big) && |SerializeAlts(alts, big)| == AltsSize(alts)
    decreases |alts|
  {
    hide Holds, HoldsAlt, AltSize, SerializeAlt, WellFormedAlt;
    if alts != [] {
      HoldsBoth(mem, pos, SerializeAlt(alts[0], big), SerializeAlts(alts[1..], big));
      AltHeld(mem, pos, alts[0], big);
      AltsHeld(mem, pos + AltSize(alts[0]), alts[1..], big);
    }
  }

  lemma {:induction false} InterfacesHeld(mem: Memory, pos: nat, s: seq<seq<AltSetting>>, big: bool)
    requires forall i :: 0 <= i < |s| ==> WellFormedInterface(s[i])
    requires Holds(mem, pos, SerializeInterfaces(s, big))
    ensures HoldsInterfaces(mem, pos, s, big) && |SerializeInterfaces(s, big)| == InterfacesSize(s)
    decreases |s|
  {
    hide Holds, HoldsAlts, AltsSize, SerializeAlts, WellFormedAlt;
    if s != [] {
      HoldsBoth(mem, pos, SerializeAlts(s[0], big), SerializeInterfaces(s[1..], big));
      AltsHeld(mem, pos, s[0], big);
      InterfacesHeld(mem, pos + AltsSize(s[0]), s[1..], big);
    }
  }

  lemma ConfigurationHeld(mem: Memory, pos: nat, c: Configuration, big: bool)
    requires WellFormed(c) && Holds(mem, pos, Serialize(c, big))
    ensures HoldsConfiguration(mem, pos, c, big) && |Serialize(c, big)| == c.head.totalLength
  {
    hide At, Word, Decode, Encode, Foreign, Holds;
    hide SerializeInterfaces, HoldsInterfaces, InterfacesSize, WellFormedInterface;
    var h := c.head;
    var fields := Encode(ConfigurationValues(h), "bbwbbbbb", big);
    var pad, rest := h.length - CONFIG_DESC_LENGTH, c.extra + SerializeInterfaces(c.interfaces, big);
    assert Serialize(c, big) == fields + Zeros(pad) + rest;
    HoldsParts(mem, pos, ConfigurationValues(h), "bbwbbbbb", big, pad, rest, 2);
    OneWordOffset("bbwbbbbb", 2, 8);
    HoldsBoth(mem, pos + h.length, c.extra, SerializeInterfaces(c.interfaces, big));
    InterfacesHeld(mem, pos + h.length + |c.extra|, c.interfaces, big);
    assert forall k :: 0 <= k < 8 ==> ConfigurationValues(h)[k] == OneWordField(mem, pos, k, 2, big);
  }

  /** The parser inverts the serializer: it rebuilds the configuration, takes all its
      bytes and leaves none, wherever in memory they are and whatever is behind them. */
  lemma ParserInvertsSerializer(mem: Memory, pos: nat, c: Configuration, big: bool)
    requires WellFormed(c) && Holds(mem, pos, Serialize(c, big))
    ensures ConfigurationAt(mem, pos, big) == Parsed(Reading(c, 0), |Serialize(c, big)|)
  {
    ConfigurationHeld(mem, pos, c, big);
    HeldIsParsed(mem, pos, c, big);
  }

  /** No two configurations share their bytes. */
  lemma SerializeInjective(c: Configuration, d: Configuration, big: bool)
    requires WellFormed(c) && WellFormed(d) && Serialize(c, big) == Serialize(d, big)
    ensures c == d
  {
    var mem: Memory := Serialize(c, big);
    forall i | 0 <= i < |mem|
      ensures At(mem, 0 + i) == mem[i]
    {
      AtIndex(mem, i);
    }
    ParserInvertsSerializer(mem, 0, c, big);
    ParserInvertsSerializer(mem, 0, d, big);
  }

  /** End to end: the code, run on the bytes of a well-formed configuration with
      anything behind them, returns that configuration and 0. */
  method ParseSerialized(c: Configuration, behind: seq<Byte>, big: bool) returns (result: Outcome<Reading>, buffer: nat)
    requires WellFormed(c)
    ensures result == Parsed(Reading(c, 0), |Serialize(c, big)|) && buffer == |Serialize(c, big)|
  {
    hide WellFormed, Serialize, ConfigurationAt, ReadConfiguration;
    var mem: Memory := Serialize(c, big) + behind;
    forall i | 0 <= i < |Serialize(c, big)|
      ensures At(mem, 0 + i) == Serialize(c, big)[i]
    {
      AtIndex(mem, i);
    }
    ParserInvertsSerializer(mem, 0, c, big);
    result, buffer := ParseConfiguration(mem, 0, big);
  }

  /** A well-formed configuration: one interface with two alternate settings, a class
      specific descriptor in front of it and another behind the first setting, and a
      padded endpoint in the second. */
  lemma WellFormedExample()
    ensures
      var endpoint := Endpoint(EndpointFields(8, 5, 0x81, 2, 512, 0, 0, 0), []);
      var first := AltSetting(InterfaceFields(9, 4, 0, 0, 0, 3, 1, 1, 0), [3, 0x24, 7], []);
      var second := AltSetting(InterfaceFields(9, 4, 0, 1, 1, 3, 1, 1, 0), [], [endpoint]);
      WellFormed(Configuration(ConfigurationFields(9, 2, 40, 1, 1, 0, 0x80, 50), [2, 0x30], [[first, second]]))
  {
    var endpoint := Endpoint(EndpointFields(8, 5, 0x81, 2, 512, 0, 0, 0), []);
    var first := AltSetting(InterfaceFields(9, 4, 0, 0, 0, 3, 1, 1, 0), [3, 0x24, 7], []);
    var second := AltSetting(InterfaceFields(9, 4, 0, 1, 1, 3, 1, 1, 0), [], [endpoint]);
    assert [3, 0x24, 7][3..] == [] && [2, 0x30][2..] == [];
    assert EndpointsSize([endpoint]) == 8 + EndpointsSize([endpoint][1..]);
    assert AltSize(first) == 12 && AltSize(second) == 17;
    assert AltsSize([second]) == 17 + AltsSize([second][1..]) == 17;
    assert AltsSize([first, second]) == 12 + AltsSize([second]) by { assert [first, second][1..] == [second]; }
    assert InterfacesSize([[first, second]]) == 29 + InterfacesSize([[first, second]][1..]);
  }
}
