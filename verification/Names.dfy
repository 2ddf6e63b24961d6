// The name registry: the abstract claim and bind of the service, the byte layout of its
// keys and records, and the scripts its actions run against the state view.
module Names {
  import opened Bytes
  import opened JamCodec
  import opened PartialViews
  import opened Spelling
  import SR = ScriptRuntime
  import B = Bits

  // ------------------------------------------------------------ abstract service

  datatype Record = Record(owner: Bytes, serviceId: nat)

  type Registry = map<Bytes, Record>

  datatype Verdict = Updated(registry: Registry) | Refused(code: nat)

  predicate NameByte(b: Byte) {
    97 <= b <= 122 || 48 <= b <= 57 || b == 45
  }

  predicate ValidName(name: Bytes) {
    && 3 <= |name| <= 32
    && name[0] != 45 && name[|name| - 1] != 45
    && forall i :: 0 <= i < |name| ==> NameByte(name[i])
  }

  const NAME_CHARACTERS := "abcdefghijklmnopqrstuvwxyz0123456789-"

  /** Three to 32 of those characters, with no hyphen at either end. */
  predicate PlainName(name: Bytes) {
    && 3 <= |name| <= 32 && name[0] != '-' as int && name[|name| - 1] != '-' as int
    && forall i :: 0 <= i < |name| ==> name[i] in Ascii(NAME_CHARACTERS)
  }

  lemma CharacterAt(k: nat)
    requires k < 37
    ensures Ascii(NAME_CHARACTERS)[k] == if k < 26 then 97 + k else if k < 36 then 22 + k else 45
  {
    var s := NAME_CHARACTERS;
    assert |s| == 37;
    if k < 10 {
      assert s[k] as int == 97 + k;
    } else if k < 20 {
      assert s[k] as int == 97 + k;
    } else if k < 30 {
      assert s[k] as int == if k < 26 then 97 + k else 22 + k;
    } else {
      assert s[k] as int == if k < 36 then 22 + k else 45;
    }
  }

  lemma NameBytes(b: Byte)
    ensures b in Ascii(NAME_CHARACTERS) <==> NameByte(b)
  {
    var s := Ascii(NAME_CHARACTERS);
    if b in s {
      var k :| 0 <= k < |s| && s[k] == b;
      CharacterAt(k);
    }
    if NameByte(b) {
      var k := if b == 45 then 36 else if b < 97 then b - 22 else b - 97;
      CharacterAt(k);
      assert s[k] == b;
    }
  }

  lemma ValidIsPlain(name: Bytes)
    ensures ValidName(name) <==> PlainName(name)
  {
    forall i | 0 <= i < |name| ensures name[i] in Ascii(NAME_CHARACTERS) <==> NameByte(name[i]) {
      NameBytes(name[i]);
    }
  }

  function Claim(registry: Registry, sender: Bytes, name: Bytes, serviceId: nat): Verdict {
    if !ValidName(name) then Refused(1)
    else if name in registry then Refused(2)
    else Updated(registry[name := Record(sender, serviceId)])
  }

  function Bind(registry: Registry, sender: Bytes, name: Bytes, serviceId: nat): Verdict {
    if !ValidName(name) then Refused(1)
    else if name !in registry then Refused(3)
    else if registry[name].owner != sender then Refused(4)
    else Updated(registry[name := Record(registry[name].owner, serviceId)])
  }

  // ----------------------------------------------------------------- byte layout

  /** "jns.names/v1" */
  const NAMESPACE: Bytes := [106, 110, 115, 46, 110, 97, 109, 101, 115, 47, 118, 49]

  const ADDRESS_BYTES := 32
  const MAX_NAME_BYTES := 32

  function Bounded(value: Bytes): Bytes
    requires |value| < U32_LIMIT
  {
    EncodeNatural(|value|) + value
  }

  function KeyName(name: Bytes): Bytes
    requires |name| <= MAX_NAME_BYTES
  {
    SR.ApplicationKey(NAMESPACE, Bounded(name))
  }

  function EncodeRecord(r: Record): Bytes {
    r.owner + U32(r.serviceId)
  }

  function DecodeRecord(raw: Bytes): Option<Record> {
    if |raw| != ADDRESS_BYTES + 4 then None
    else Some(Record(raw[..ADDRESS_BYTES], ToU32(raw[ADDRESS_BYTES..])))
  }

  predicate WellFormedRecord(r: Record) {
    |r.owner| == ADDRESS_BYTES && r.serviceId < U32_LIMIT
  }

  lemma RecordRoundTrip(r: Record)
    requires WellFormedRecord(r)
    ensures DecodeRecord(EncodeRecord(r)) == Some(r)
  {
    var raw := EncodeRecord(r);
    U32RoundTrip(r.serviceId);
    assert raw[..ADDRESS_BYTES] == r.owner && raw[ADDRESS_BYTES..] == U32(r.serviceId);
  }

  /** The action input: a bounded name and a u32, and nothing after them. */
  function DecodeInput(raw: Bytes): Option<(Bytes, nat)> {
    match DecodeNatural(raw)
    case None => None
    case Some((length, rest)) =>
      if length > MAX_NAME_BYTES || |rest| != length + 4 then None
      else Some((rest[..length], ToU32(rest[length..])))
  }

  lemma InputServiceId(payload: Bytes)
    requires DecodeInput(payload).Some?
    ensures DecodeInput(payload).value.1 < U32_LIMIT
  {
    var rest := DecodeNatural(payload).value.1;
    var tail := rest[|rest| - 4..];
    U32Inverse(tail);
  }

  lemma KeyLayout(name: Bytes)
    requires |name| <= MAX_NAME_BYTES
    ensures KeyName(name) == [1, 12, 0] + NAMESPACE + [|name|] + name
    ensures |KeyName(name)| == 16 + |name| && KeyName(name)[16..] == name
  {
    assert EncodeNatural(|name|) == [|name|] by {
      assert Pow256(0) == 1;
      assert EncodeNatural(|name|) == [256 - B.Pow2(8) + |name| / 1] + LE(|name| % 1, 0);
      assert B.Pow2(8) == 256;
    }
    assert KeyName(name)[16..] == name;
  }


  // -------------------------------------------------------------------- scripts

  function ClaimBody(sender: Bytes, name: Bytes, serviceId: nat): Program {
    if !ValidName(name) then Abort(1.0) else
    var key, value := KeyName(name), EncodeRecord(Record(sender, serviceId));
    Get(key, (present: Option<Bytes>) => if present.Some? then Abort(2.0) else Set(key, value, Return))
  }

  function BindBody(sender: Bytes, name: Bytes, serviceId: nat): Program {
    if !ValidName(name) then Abort(1.0) else
    Get(KeyName(name), current => Rebind(KeyName(name), sender, serviceId, current))
  }

  function ClaimScript(payload: Bytes, sender: Bytes): Program {
    if |sender| != ADDRESS_BYTES then Throw else
    match DecodeInput(payload)
    case None => Throw
    case Some((name, serviceId)) => ClaimBody(sender, name, serviceId)
  }

  function BindScript(payload: Bytes, sender: Bytes): Program {
    if |sender| != ADDRESS_BYTES then Throw else
    match DecodeInput(payload)
    case None => Throw
    case Some((name, serviceId)) => BindBody(sender, name, serviceId)
  }

  function Rebind(key: Bytes, sender: Bytes, serviceId: nat, current: Option<Bytes>): Program {
    match current
    case None => Abort(3.0)
    case Some(raw) =>
      match DecodeRecord(raw)
      case None => Throw
      case Some(r) =>
        if r.owner != sender then Abort(4.0)
        else Set(key, EncodeRecord(Record(r.owner, serviceId)), Return)
  }

  /** Both scripts end within two state operations. */
  lemma ScriptsAreShort(payload: Bytes, sender: Bytes)
    ensures Within(ClaimScript(payload, sender), 2) && Within(BindScript(payload, sender), 2)
  {
  }
}
