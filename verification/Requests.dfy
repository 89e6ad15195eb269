/** The two control-plane requests, written through the JSON writer and read back. */
module Requests {
  import opened Bytes
  import opened JsonSyntax
  import opened JsonReader
  import opened JsonExact
  import opened JsonWriter
  import Documents = Json
  import Latency

  /** The device's self-description; absent and empty parts are left out of the document. */
  datatype Hostinfo = Hostinfo(
    hostname: bytes, ipnVersion: bytes, os: bytes, osVersion: bytes, machine: bytes, routableIps: seq<bytes>,
    preferredDerp: u32, derpLatencyMs: Option<u32>, workingUdp: bool)

  datatype Register = Register(
    capabilityVersion: u32, nodeKey: bytes, authKey: Option<bytes>, followup: Option<bytes>, hostinfo: Hostinfo,
    ephemeral: bool)

  datatype MapRequest = MapRequest(
    capabilityVersion: u32, nodeKey: bytes, discoKey: bytes, hostinfo: Hostinfo, stream: bool, keepAlive: bool,
    omitPeers: bool, endpoints: seq<bytes>, endpointTypes: seq<byte>)

  // ---------------------------------------------------------------- documents

  /** A member of an object, which may be left out. */
  datatype Part = Part(present: bool, key: bytes, value: Json)

  function Always(key: string, value: Json): Part {
    Part(true, Ascii(key), value)
  }

  function When(present: bool, key: string, value: Json): Part {
    Part(present, Ascii(key), value)
  }

  function Of(parts: seq<Part>): Fields {
    if parts == [] then NoFields
    else if parts[0].present then Fields.Field(parts[0].key, parts[0].value, Of(parts[1..]))
    else Of(parts[1..])
  }

  function ListOf(items: seq<Json>): List {
    if items == [] then NoElements else Element(items[0], ListOf(items[1..]))
  }

  function Strings(texts: seq<bytes>): List {
    ListOf(Map((text: bytes) => JString(text), texts))
  }

  function Numbers(ns: seq<byte>): List {
    ListOf(Map((n: byte) => JNumber(n), ns))
  }

  function Given(text: Option<bytes>): bytes {
    if text.Some? then text.value else []
  }

  /** The key of a region's latency over IPv4. */
  function RegionKey(region: u32): bytes {
    Decimal(region) + Ascii("-v4")
  }

  /** The relay latency, under the key of its region. */
  function LatencyPart(h: Hostinfo): Part {
    var ms := if h.derpLatencyMs.Some? then h.derpLatencyMs.value else 0;
    Part(true, RegionKey(h.preferredDerp), JRaw(Num(Latency.Text(ms))))
  }

  function NetInfo(h: Hostinfo): seq<Part> {
    [Always("MappingVariesByDestIP", JBool(false)), Always("WorkingIPv6", JBool(false)),
     Always("OSHasIPv6", JBool(false)), Always("WorkingUDP", JBool(h.workingUdp)),
     Always("HavePortMap", JBool(false)), Always("UPnP", JBool(false)), Always("PMP", JBool(false)),
     Always("PCP", JBool(false)), Always("PreferredDERP", JNumber(h.preferredDerp)),
     When(h.derpLatencyMs.Some?, "DERPLatency", JObject(Of([LatencyPart(h)]))),
     Always("LinkType", JString(Ascii("wifi")))]
  }

  function HostParts(h: Hostinfo): seq<Part> {
    [Always("IPNVersion", JString(h.ipnVersion)), Always("OS", JString(h.os)),
     When(h.osVersion != [], "OSVersion", JString(h.osVersion)),
     Always("Hostname", JString(h.hostname)), Always("Machine", JString(h.machine)),
     When(h.preferredDerp != 0, "NetInfo", JObject(Of(NetInfo(h)))),
     When(h.routableIps != [], "RoutableIPs", JArray(Strings(h.routableIps)))]
  }

  function AuthParts(authKey: bytes): seq<Part> {
    [Always("AuthKey", JString(authKey))]
  }

  function RegisterParts(r: Register): seq<Part> {
    [Always("Version", JNumber(r.capabilityVersion)), Always("NodeKey", JString(r.nodeKey)),
     When(r.authKey.Some?, "Auth", JObject(Of(AuthParts(Given(r.authKey))))),
     When(r.followup.Some?, "Followup", JString(Given(r.followup))),
     Always("Hostinfo", JObject(Of(HostParts(r.hostinfo)))),
     When(r.ephemeral, "Ephemeral", JBool(true))]
  }

  function MapParts(m: MapRequest): seq<Part> {
    [Always("Version", JNumber(m.capabilityVersion)), Always("Compress", JString([])),
     Always("KeepAlive", JBool(m.keepAlive)), Always("NodeKey", JString(m.nodeKey)),
     Always("DiscoKey", JString(m.discoKey)), When(m.stream, "Stream", JBool(true)),
     When(m.omitPeers, "OmitPeers", JBool(true)),
     When(m.endpoints != [], "Endpoints", JArray(Strings(m.endpoints))),
     When(m.endpoints != [] && m.endpointTypes != [], "EndpointTypes", JArray(Numbers(m.endpointTypes))),
     Always("Hostinfo", JObject(Of(HostParts(m.hostinfo))))]
  }

  function RegisterText(r: Register): bytes {
    Canonical(JObject(Of(RegisterParts(r))))
  }

  function MapText(m: MapRequest): bytes {
    Canonical(JObject(Of(MapParts(m))))
  }

  // ---------------------------------------------------------------- writing

  function PieceText(part: Part, comma: bool): bytes {
    if part.present then MemberText(part.key, part.value, comma) else []
  }

  /** An object being written: the text before its first member, and all of its parts, the
      first of which is always present. */
  datatype Plan = Plan(before: bytes, parts: seq<Part>)
  {
    /** The text once the first `i` parts are written. */
    function Upto(i: nat): bytes
      requires i <= |parts|
    {
      if i == 0 then before else Upto(i - 1) + PieceText(parts[i - 1], i > 1)
    }

    function Whole(): bytes {
      Upto(|parts|) + [CLOSE_BRACE]
    }
  }

  function PlanOf(start: bytes, parts: seq<Part>): Plan {
    Plan(start + [OPEN_BRACE], parts)
  }

  lemma {:induction false} UptoRest(plan: Plan, i: nat)
    requires 0 < i <= |plan.parts|
    ensures plan.Upto(|plan.parts|) == plan.Upto(i) + Documents.FieldsText(Of(plan.parts[i..]), true)
    decreases |plan.parts| - i
  {
    hide Canonical, KeyText;
    if i < |plan.parts| {
      UptoRest(plan, i + 1);
      assert plan.parts[i..][1..] == plan.parts[i + 1..];
    }
  }

  /** All parts between braces are the object. */
  lemma WholeIsObject(start: bytes, parts: seq<Part>)
    requires parts != [] && parts[0].present
    ensures PlanOf(start, parts).Whole() == start + Canonical(JObject(Of(parts)))
  {
    hide Canonical, KeyText, RenderMembers;
    var plan := PlanOf(start, parts);
    UptoRest(plan, 1);
    var inner := Documents.FieldsText(Of(parts), false);
    Documents.CanonicalNested(JObject(Of(parts)));
    assert plan.Upto(|parts|) == plan.before + inner;
    assert plan.before + inner + [CLOSE_BRACE] == start + ([OPEN_BRACE] + [] + inner + [CLOSE_BRACE]);
  }

  lemma {:induction false} UptoGrows(plan: Plan, i: nat)
    requires i <= |plan.parts|
    ensures |plan.Upto(i)| < |plan.Whole()|
    decreases |plan.parts| - i
  {
    hide PieceText;
    if i < |plan.parts| {
      UptoGrows(plan, i + 1);
    }
  }

  /** The first `i` parts are written. */
  ghost predicate SoFar(w: Writer, plan: Plan, i: nat)
    reads w, w.buf
  {
    && i <= |plan.parts| && w.Valid() && w.Text() == plan.Upto(i)
    && (w.needsComma <==> i > 0)
  }

  /** What a step leaves: the first `i` parts written, unless the whole object does not fit. */
  ghost predicate Went(w: Writer, plan: Plan, i: nat, ok: bool)
    reads w, w.buf
  {
    w.Valid() && if ok then SoFar(w, plan, i) else |plan.Whole()| > w.buf.Length
  }

  /** A part that is left out takes no step. */
  lemma LeftOut(w: Writer, plan: Plan, i: nat)
    requires SoFar(w, plan, i) && 0 < i < |plan.parts| && !plan.parts[i].present
    ensures w.Valid() && SoFar(w, plan, i + 1)
  {
  }

  method Begin(w: Writer, ghost plan: Plan) returns (r: Written)
    requires w.Valid() && !w.needsComma && plan.before == w.Text() + [OPEN_BRACE]
    modifies w, w.buf
    ensures Went(w, plan, 0, r.Ok?)
  {
    UptoGrows(plan, 0);
    r := w.BeginObject();
  }

  method End(w: Writer, ghost plan: Plan) returns (r: Written)
    requires SoFar(w, plan, |plan.parts|)
    modifies w, w.buf
    ensures Ended(w, plan.Whole(), r.Ok?)
  {
    r := w.EndObject();
  }

  /** The text is complete, unless it does not fit. */
  ghost predicate Ended(w: Writer, text: bytes, ok: bool)
    reads w, w.buf
  {
    w.Valid() && if ok then w.Text() == text && w.needsComma else |text| > w.buf.Length
  }

  method PutStr(w: Writer, ghost plan: Plan, ghost i: nat, key: string, value: bytes) returns (r: Written)
    requires SoFar(w, plan, i) && i < |plan.parts| && plan.parts[i] == Part(true, Ascii(key), JString(value))
    modifies w, w.buf
    ensures Went(w, plan, i + 1, r.Ok?)
  {
    hide MemberText, Ascii;
    UptoGrows(plan, i + 1);
    r := w.FieldStr(Ascii(key), value);
  }

  method PutU64(w: Writer, ghost plan: Plan, ghost i: nat, key: string, value: u64) returns (r: Written)
    requires SoFar(w, plan, i) && i < |plan.parts| && plan.parts[i] == Part(true, Ascii(key), JNumber(value))
    modifies w, w.buf
    ensures Went(w, plan, i + 1, r.Ok?)
  {
    hide MemberText, Ascii;
    UptoGrows(plan, i + 1);
    r := w.FieldU64(Ascii(key), value);
  }

  method PutBool(w: Writer, ghost plan: Plan, ghost i: nat, key: string, value: bool) returns (r: Written)
    requires SoFar(w, plan, i) && i < |plan.parts| && plan.parts[i] == Part(true, Ascii(key), JBool(value))
    modifies w, w.buf
    ensures Went(w, plan, i + 1, r.Ok?)
  {
    hide MemberText, Ascii;
    UptoGrows(plan, i + 1);
    r := w.FieldBool(Ascii(key), value);
  }

  /** The key of a part is written, and its value still to come. */
  ghost predicate KeyPut(w: Writer, plan: Plan, i: nat)
    reads w, w.buf
  {
    && i < |plan.parts| && plan.parts[i].present && w.Valid() && !w.needsComma
    && w.Text() == plan.Upto(i) + KeyText(plan.parts[i].key, i > 0)
  }

  method PutKey(w: Writer, ghost plan: Plan, ghost i: nat, key: bytes) returns (r: Written)
    requires SoFar(w, plan, i) && i < |plan.parts| && plan.parts[i].present && plan.parts[i].key == key
    modifies w, w.buf
    ensures w.Valid() && if r.Ok? then KeyPut(w, plan, i) else |plan.Whole()| > w.buf.Length
  {
    hide KeyText, Canonical;
    UptoGrows(plan, i + 1);
    r := w.Key(key);
  }

  /** The value after its key completes the part. */
  lemma ValueIsPart(w: Writer, plan: Plan, i: nat)
    requires KeyPut(w, plan, i)
    ensures w.Valid() && !w.needsComma && i + 1 <= |plan.parts|
    ensures w.Text() + Canonical(plan.parts[i].value) == plan.Upto(i + 1)
    ensures |plan.Upto(i + 1)| < |plan.Whole()|
  {
    hide KeyText, Canonical;
    UptoGrows(plan, i + 1);
    var key, value := KeyText(plan.parts[i].key, i > 0), Canonical(plan.parts[i].value);
    assert plan.Upto(i) + key + value == plan.Upto(i) + (key + value);
  }

  lemma PartEnded(w: Writer, plan: Plan, i: nat, ok: bool)
    requires i < |plan.parts| && Ended(w, plan.Upto(i + 1), ok) && |plan.Upto(i + 1)| < |plan.Whole()|
    ensures Went(w, plan, i + 1, ok)
  {
  }

  method PutRaw(w: Writer, ghost plan: Plan, ghost i: nat, ghost ms: u32, text: bytes) returns (r: Written)
    requires KeyPut(w, plan, i) && plan.parts[i].value == JRaw(Num(text)) && text == Latency.Text(ms)
    modifies w, w.buf
    ensures Went(w, plan, i + 1, r.Ok?)
  {
    hide Canonical, Plan.Upto, Plan.Whole, Latency.Text;
    RawText(ms);
    ValueIsPart(w, plan, i);
    r := w.RawValue(text);
    PartEnded(w, plan, i, r.Ok?);
  }

  lemma RawText(ms: u32)
    ensures Canonical(JRaw(Num(Latency.Text(ms)))) == Comma(false) + Latency.Text(ms)
  {
  }

  /** A latency's key: the region in decimal, rendered from the right. */
  method WriteRegionKey(region: u32, out: array<byte>) returns (key: bytes)
    requires out.Length == 16
    modifies out
    ensures |key| <= out.Length && key == out[..|key|] == RegionKey(region)
  {
    hide Decimal;
    U32FitsInTenDigits(region);
    var digits := new byte[10];
    var n, i := region as int, 10;
    LastDigit(region);
    if n == 0 {
      i := i - 1;
      digits[i] := 48;
    }
    while n > 0
      invariant 0 <= i <= 10 && n >= 0
      invariant n > 0 ==> |Decimal(n)| <= i && Decimal(region) == Decimal(n) + digits[i..]
      invariant n == 0 ==> Decimal(region) == digits[i..]
      decreases n
    {
      LastDigit(n);
      ghost var tail := digits[i..];
      i := i - 1;
      digits[i] := 48 + n % 10;
      assert digits[i..] == [48 + n % 10] + tail;
      n := n / 10;
    }
    key := Suffixed(digits, i, out);
  }

  /** Copies the digits to the front and puts the address family behind them. */
  method Suffixed(digits: array<byte>, i: nat, out: array<byte>) returns (key: bytes)
    requires out.Length == 16 && digits.Length == 10 && i <= 10 && out != digits
    modifies out
    ensures |key| <= out.Length && key == out[..|key|] == digits[i..] + Ascii("-v4")
  {
    var len := 10 - i;
    forall k | 0 <= k < len { out[k] := digits[i + k]; }
    assert out[..len] == digits[i..];
    var suffix := Ascii("-v4");
    forall k | 0 <= k < 3 { out[len + k] := suffix[k]; }
    key := out[..len + 3];
    assert out[len..len + 3] == suffix;
    assert key == out[..len] + out[len..len + 3];
  }

  lemma LastDigit(n: nat)
    ensures n < 10 ==> Decimal(n) == [48 + n]
    ensures n >= 10 ==> Decimal(n) == Decimal(n / 10) + [48 + n % 10]
  {
  }

  lemma U32FitsInTenDigits(n: u32)
    ensures |Decimal(n)| <= 10
  {
    assert Pow10(10) == 10_000_000_000 by {
      assert Pow10(5) == 100_000;
    }
    DecimalLength(n, 10);
  }

  /** The text once the first `i` elements of an array are written. */
  function Listed(before: bytes, items: seq<Json>, i: nat): bytes
    requires i <= |items|
  {
    if i == 0 then before else Listed(before, items, i - 1) + (Comma(i > 1) + Canonical(items[i - 1]))
  }

  lemma {:induction false} ListedRest(before: bytes, items: seq<Json>, i: nat)
    requires i <= |items|
    ensures Listed(before, items, |items|) == Listed(before, items, i) + Documents.ListText(ListOf(items[i..]), i > 0)
    ensures |Listed(before, items, i)| <= |Listed(before, items, |items|)|
    decreases |items| - i
  {
    hide Canonical;
    if i < |items| {
      ListedRest(before, items, i + 1);
      assert items[i..][1..] == items[i + 1..];
    }
  }

  /** All elements between brackets are the array. */
  lemma ArrayText(before: bytes, items: seq<Json>)
    ensures Listed(before + [OPEN_BRACKET], items, |items|) + [CLOSE_BRACKET]
         == before + Canonical(JArray(ListOf(items)))
    ensures Listed(before + [OPEN_BRACKET], items, 0) == before + [OPEN_BRACKET]
    ensures |before| + 1 + 1 <= |before + Canonical(JArray(ListOf(items)))|
  {
    hide Canonical, RenderItems;
    var head := before + [OPEN_BRACKET];
    ListedRest(head, items, 0);
    assert items[0..] == items;
    var inner := Documents.ListText(ListOf(items), false);
    Documents.CanonicalNested(JArray(ListOf(items)));
    assert head + inner + [CLOSE_BRACKET] == before + ([OPEN_BRACKET] + [] + inner + [CLOSE_BRACKET]);
  }

  /** The next element. */
  lemma NextItem(before: bytes, items: seq<Json>, i: nat)
    requires i < |items|
    ensures Listed(before, items, i + 1) == Listed(before, items, i) + (Comma(i > 0) + Canonical(items[i]))
    ensures |Listed(before, items, i + 1)| <= |Listed(before, items, |items|)|
  {
    hide Documents.ListText;
    ListedRest(before, items, i + 1);
  }

  method WriteStrings(w: Writer, texts: seq<bytes>, ghost plan: Plan, ghost i: nat) returns (r: Written)
    requires KeyPut(w, plan, i) && plan.parts[i].value == JArray(Strings(texts))
    modifies w, w.buf
    ensures Went(w, plan, i + 1, r.Ok?)
  {
    hide Canonical, Listed, Plan.Upto, Plan.Whole, Writer.Text, Quoted, Escape, Decimal;
    ghost var items, before := Map((text: bytes) => JString(text), texts), w.Text() + [OPEN_BRACKET];
    ValueIsPart(w, plan, i);
    ArrayText(w.Text(), items);
    :- w.BeginArray();
    for k := 0 to |texts|
      invariant w.Valid() && w.Text() == Listed(before, items, k) && (w.needsComma <==> k > 0)
    {
      NextItem(before, items, k);
      ScalarText(texts[k], 0, false);
      :- w.StrValue(texts[k]);
    }
    r := w.EndArray();
    PartEnded(w, plan, i, r.Ok?);
  }

  method WriteNumbers(w: Writer, ns: seq<byte>, ghost plan: Plan, ghost i: nat) returns (r: Written)
    requires KeyPut(w, plan, i) && plan.parts[i].value == JArray(Numbers(ns))
    modifies w, w.buf
    ensures Went(w, plan, i + 1, r.Ok?)
  {
    hide Canonical, Listed, Plan.Upto, Plan.Whole, Writer.Text, Quoted, Escape, Decimal;
    ghost var items, before := Map((n: byte) => JNumber(n), ns), w.Text() + [OPEN_BRACKET];
    ValueIsPart(w, plan, i);
    ArrayText(w.Text(), items);
    :- w.BeginArray();
    for k := 0 to |ns|
      invariant w.Valid() && w.Text() == Listed(before, items, k) && (w.needsComma <==> k > 0)
    {
      NextItem(before, items, k);
      ScalarText([], ns[k], false);
      :- w.U64Value(ns[k]);
    }
    r := w.EndArray();
    PartEnded(w, plan, i, r.Ok?);
  }

  lemma NetInfoListed(h: Hostinfo)
    ensures |NetInfo(h)| == 11
    ensures NetInfo(h)[0] == Part(true, Ascii("MappingVariesByDestIP"), JBool(false))
    ensures NetInfo(h)[1] == Part(true, Ascii("WorkingIPv6"), JBool(false))
    ensures NetInfo(h)[2] == Part(true, Ascii("OSHasIPv6"), JBool(false))
    ensures NetInfo(h)[3] == Part(true, Ascii("WorkingUDP"), JBool(h.workingUdp))
    ensures NetInfo(h)[4] == Part(true, Ascii("HavePortMap"), JBool(false))
    ensures NetInfo(h)[5] == Part(true, Ascii("UPnP"), JBool(false))
    ensures NetInfo(h)[6] == Part(true, Ascii("PMP"), JBool(false))
    ensures NetInfo(h)[7] == Part(true, Ascii("PCP"), JBool(false))
    ensures NetInfo(h)[8] == Part(true, Ascii("PreferredDERP"), JNumber(h.preferredDerp))
    ensures NetInfo(h)[9] == Part(h.derpLatencyMs.Some?, Ascii("DERPLatency"), JObject(Of([LatencyPart(h)])))
    ensures NetInfo(h)[10] == Part(true, Ascii("LinkType"), JString(Ascii("wifi")))
  {
    hide Ascii, ListOf, Of, Canonical;
  }

  lemma HostPartsListed(h: Hostinfo)
    ensures |HostParts(h)| == 7
    ensures HostParts(h)[0] == Part(true, Ascii("IPNVersion"), JString(h.ipnVersion))
    ensures HostParts(h)[1] == Part(true, Ascii("OS"), JString(h.os))
    ensures HostParts(h)[2] == Part(h.osVersion != [], Ascii("OSVersion"), JString(h.osVersion))
    ensures HostParts(h)[3] == Part(true, Ascii("Hostname"), JString(h.hostname))
    ensures HostParts(h)[4] == Part(true, Ascii("Machine"), JString(h.machine))
    ensures HostParts(h)[5] == Part(h.preferredDerp != 0, Ascii("NetInfo"), JObject(Of(NetInfo(h))))
    ensures HostParts(h)[6] == Part(h.routableIps != [], Ascii("RoutableIPs"), JArray(Strings(h.routableIps)))
  {
    hide Ascii, ListOf, Of, Canonical;
  }

  lemma RegisterPartsListed(r: Register)
    ensures |RegisterParts(r)| == 6
    ensures RegisterParts(r)[0] == Part(true, Ascii("Version"), JNumber(r.capabilityVersion))
    ensures RegisterParts(r)[1] == Part(true, Ascii("NodeKey"), JString(r.nodeKey))
    ensures RegisterParts(r)[2] == Part(r.authKey.Some?, Ascii("Auth"), JObject(Of(AuthParts(Given(r.authKey)))))
    ensures RegisterParts(r)[3] == Part(r.followup.Some?, Ascii("Followup"), JString(Given(r.followup)))
    ensures RegisterParts(r)[4] == Part(true, Ascii("Hostinfo"), JObject(Of(HostParts(r.hostinfo))))
    ensures RegisterParts(r)[5] == Part(r.ephemeral, Ascii("Ephemeral"), JBool(true))
  {
    hide Ascii, ListOf, Of, Canonical;
  }

  lemma MapPartsListed(m: MapRequest)
    ensures |MapParts(m)| == 10
    ensures MapParts(m)[0] == Part(true, Ascii("Version"), JNumber(m.capabilityVersion))
    ensures MapParts(m)[1] == Part(true, Ascii("Compress"), JString([]))
    ensures MapParts(m)[2] == Part(true, Ascii("KeepAlive"), JBool(m.keepAlive))
    ensures MapParts(m)[3] == Part(true, Ascii("NodeKey"), JString(m.nodeKey))
    ensures MapParts(m)[4] == Part(true, Ascii("DiscoKey"), JString(m.discoKey))
    ensures MapParts(m)[5] == Part(m.stream, Ascii("Stream"), JBool(true))
    ensures MapParts(m)[6] == Part(m.omitPeers, Ascii("OmitPeers"), JBool(true))
    ensures MapParts(m)[7] == Part(m.endpoints != [], Ascii("Endpoints"), JArray(Strings(m.endpoints)))
    ensures MapParts(m)[8] == Part(m.endpoints != [] && m.endpointTypes != [], Ascii("EndpointTypes"), JArray(Numbers(m.endpointTypes)))
    ensures MapParts(m)[9] == Part(true, Ascii("Hostinfo"), JObject(Of(HostParts(m.hostinfo))))
  {
    hide Ascii, ListOf, Of, Canonical;
  }

  /** The latency object: one member, under the key of the home region. */
  method WriteLatency(w: Writer, h: Hostinfo, ghost outer: Plan, ghost i: nat) returns (r: Written)
    requires KeyPut(w, outer, i) && outer.parts[i].value == JObject(Of([LatencyPart(h)])) && h.derpLatencyMs.Some?
    modifies w, w.buf
    ensures Went(w, outer, i + 1, r.Ok?)
  {
    hide Canonical, Plan.Upto, Plan.Whole, Writer.Text, Writer.Valid, Of, SoFar, KeyPut, Ascii, RegionKey, Latency.Text;
    ValueIsPart(w, outer, i);
    ghost var plan := PlanOf(w.Text(), [LatencyPart(h)]);
    WholeIsObject(w.Text(), [LatencyPart(h)]);
    :- Begin(w, plan);
    var key := new byte[16];
    var region := WriteRegionKey(h.preferredDerp, key);
    :- PutKey(w, plan, 0, region);
    var secs := new byte[12];
    var rendered := Latency.WriteSeconds(h.derpLatencyMs.value, secs);
    :- PutRaw(w, plan, 0, h.derpLatencyMs.value, rendered);
    r := End(w, plan);
    PartEnded(w, outer, i, r.Ok?);
  }

  method WriteNetInfo(w: Writer, h: Hostinfo, ghost outer: Plan, ghost i: nat) returns (r: Written)
    requires KeyPut(w, outer, i) && outer.parts[i].value == JObject(Of(NetInfo(h)))
    modifies w, w.buf
    ensures Went(w, outer, i + 1, r.Ok?)
  {
    hide Canonical, Plan.Upto, Plan.Whole, Writer.Text, Writer.Valid, Of, SoFar, KeyPut, Ascii, NetInfo, LatencyPart;
    NetInfoListed(h);
    ValueIsPart(w, outer, i);
    ghost var plan := PlanOf(w.Text(), NetInfo(h));
    WholeIsObject(w.Text(), NetInfo(h));
    :- Begin(w, plan);
    :- PutBool(w, plan, 0, "MappingVariesByDestIP", false);
    :- PutBool(w, plan, 1, "WorkingIPv6", false);
    :- PutBool(w, plan, 2, "OSHasIPv6", false);
    :- PutBool(w, plan, 3, "WorkingUDP", h.workingUdp);
    :- PutBool(w, plan, 4, "HavePortMap", false);
    :- PutBool(w, plan, 5, "UPnP", false);
    :- PutBool(w, plan, 6, "PMP", false);
    :- PutBool(w, plan, 7, "PCP", false);
    :- PutU64(w, plan, 8, "PreferredDERP", h.preferredDerp);
    if h.derpLatencyMs.Some? {
      :- PutKey(w, plan, 9, Ascii("DERPLatency"));
      :- WriteLatency(w, h, plan, 9);
    } else {
      LeftOut(w, plan, 9);
    }
    :- PutStr(w, plan, 10, "LinkType", Ascii("wifi"));
    r := End(w, plan);
    PartEnded(w, outer, i, r.Ok?);
  }

  method WriteHostinfo(w: Writer, h: Hostinfo, ghost outer: Plan, ghost i: nat) returns (r: Written)
    requires KeyPut(w, outer, i) && outer.parts[i].value == JObject(Of(HostParts(h)))
    modifies w, w.buf
    ensures Went(w, outer, i + 1, r.Ok?)
  {
    hide Canonical, Plan.Upto, Plan.Whole, Writer.Text, Writer.Valid, Of, SoFar, KeyPut, Ascii, NetInfo, HostParts, Strings;
    HostPartsListed(h);
    ValueIsPart(w, outer, i);
    ghost var plan := PlanOf(w.Text(), HostParts(h));
    WholeIsObject(w.Text(), HostParts(h));
    :- Begin(w, plan);
    :- PutStr(w, plan, 0, "IPNVersion", h.ipnVersion);
    :- PutStr(w, plan, 1, "OS", h.os);
    if h.osVersion != [] {
      :- PutStr(w, plan, 2, "OSVersion", h.osVersion);
    } else {
      LeftOut(w, plan, 2);
    }
    :- PutStr(w, plan, 3, "Hostname", h.hostname);
    :- PutStr(w, plan, 4, "Machine", h.machine);
    if h.preferredDerp != 0 {
      :- PutKey(w, plan, 5, Ascii("NetInfo"));
      :- WriteNetInfo(w, h, plan, 5);
    } else {
      LeftOut(w, plan, 5);
    }
    if h.routableIps != [] {
      :- PutKey(w, plan, 6, Ascii("RoutableIPs"));
      :- WriteStrings(w, h.routableIps, plan, 6);
    } else {
      LeftOut(w, plan, 6);
    }
    r := End(w, plan);
    PartEnded(w, outer, i, r.Ok?);
  }

  method WriteAuth(w: Writer, authKey: bytes, ghost outer: Plan, ghost i: nat) returns (r: Written)
    requires KeyPut(w, outer, i) && outer.parts[i].value == JObject(Of(AuthParts(authKey)))
    modifies w, w.buf
    ensures Went(w, outer, i + 1, r.Ok?)
  {
    hide Canonical, Plan.Upto, Plan.Whole, Writer.Text, Writer.Valid, Of, SoFar, KeyPut, Ascii, MemberText;
    ValueIsPart(w, outer, i);
    ghost var plan := PlanOf(w.Text(), AuthParts(authKey));
    WholeIsObject(w.Text(), AuthParts(authKey));
    :- Begin(w, plan);
    :- PutStr(w, plan, 0, "AuthKey", authKey);
    r := End(w, plan);
    PartEnded(w, outer, i, r.Ok?);
  }

  /** Writes a registration and returns its length: the whole document if it fits `out`, and
      an error otherwise. */
  method WriteRegisterRequest(out: array<byte>, r: Register) returns (n: Result<nat, JsonError>)
    modifies out
    ensures var text := RegisterText(r);
            if |text| <= out.Length then n == Ok(|text|) && out[..|text|] == text else n.Err?
  {
    hide Canonical, Plan.Upto, Plan.Whole, Writer.Text, Writer.Valid, Of, SoFar, KeyPut, Ascii, RegisterParts, HostParts, AuthParts;
    RegisterPartsListed(r);
    var w := new Writer(out);
    Empty(w);
    ghost var plan := PlanOf([], RegisterParts(r));
    WholeIsObject([], RegisterParts(r));
    :- Begin(w, plan);
    :- PutU64(w, plan, 0, "Version", r.capabilityVersion);
    :- PutStr(w, plan, 1, "NodeKey", r.nodeKey);
    if r.authKey.Some? {
      :- PutKey(w, plan, 2, Ascii("Auth"));
      :- WriteAuth(w, r.authKey.value, plan, 2);
    } else {
      LeftOut(w, plan, 2);
    }
    if r.followup.Some? {
      :- PutStr(w, plan, 3, "Followup", r.followup.value);
    } else {
      LeftOut(w, plan, 3);
    }
    :- PutKey(w, plan, 4, Ascii("Hostinfo"));
    :- WriteHostinfo(w, r.hostinfo, plan, 4);
    if r.ephemeral {
      :- PutBool(w, plan, 5, "Ephemeral", true);
    } else {
      LeftOut(w, plan, 5);
    }
    :- End(w, plan);
    Length(w);
    n := Ok(w.pos);
  }

  /** The addresses of the device, and of what kind each is. */
  method WriteEndpoints(w: Writer, m: MapRequest, ghost plan: Plan) returns (r: Written)
    requires plan.parts == MapParts(m) && SoFar(w, plan, 7)
    modifies w, w.buf
    ensures Went(w, plan, 9, r.Ok?)
  {
    hide Canonical, Plan.Upto, Plan.Whole, Writer.Text, Writer.Valid, Of, SoFar, KeyPut, Ascii, MapParts, HostParts,
         Strings, Numbers;
    MapPartsListed(m);
    if m.endpoints == [] {
      LeftOut(w, plan, 7);
      LeftOut(w, plan, 8);
      return Ok(());
    }
    :- PutKey(w, plan, 7, Ascii("Endpoints"));
    :- WriteStrings(w, m.endpoints, plan, 7);
    if m.endpointTypes == [] {
      LeftOut(w, plan, 8);
      return Ok(());
    }
    :- PutKey(w, plan, 8, Ascii("EndpointTypes"));
    r := WriteNumbers(w, m.endpointTypes, plan, 8);
  }

  /** The same for a netmap request. */
  method WriteMapRequest(out: array<byte>, m: MapRequest) returns (n: Result<nat, JsonError>)
    modifies out
    ensures var text := MapText(m);
            if |text| <= out.Length then n == Ok(|text|) && out[..|text|] == text else n.Err?
  {
    hide Canonical, Plan.Upto, Plan.Whole, Writer.Text, Writer.Valid, Of, SoFar, KeyPut, Ascii, MapParts, HostParts, Strings, Numbers;
    MapPartsListed(m);
    var w := new Writer(out);
    Empty(w);
    ghost var plan := PlanOf([], MapParts(m));
    WholeIsObject([], MapParts(m));
    :- Begin(w, plan);
    :- PutU64(w, plan, 0, "Version", m.capabilityVersion);
    :- PutStr(w, plan, 1, "Compress", []);
    :- PutBool(w, plan, 2, "KeepAlive", m.keepAlive);
    :- PutStr(w, plan, 3, "NodeKey", m.nodeKey);
    :- PutStr(w, plan, 4, "DiscoKey", m.discoKey);
    if m.stream {
      :- PutBool(w, plan, 5, "Stream", true);
    } else {
      LeftOut(w, plan, 5);
    }
    if m.omitPeers {
      :- PutBool(w, plan, 6, "OmitPeers", true);
    } else {
      LeftOut(w, plan, 6);
    }
    :- WriteEndpoints(w, m, plan);
    :- PutKey(w, plan, 9, Ascii("Hostinfo"));
    :- WriteHostinfo(w, m.hostinfo, plan, 9);
    :- End(w, plan);
    Length(w);
    n := Ok(w.pos);
  }

  lemma Empty(w: Writer)
    requires w.Valid() && w.pos == 0
    ensures w.Text() == []
  {
  }

  lemma Length(w: Writer)
    requires w.Valid()
    ensures w.pos <= w.buf.Length && w.Text() == w.buf[..w.pos] && |w.Text()| == w.pos
  {
  }

  // ---------------------------------------------------------------- reading back

  ghost predicate Distinct(parts: seq<Part>) {
    forall i, j :: 0 <= i < j < |parts| ==> parts[i].key != parts[j].key
  }

  ghost predicate LegalParts(parts: seq<Part>) {
    forall i :: 0 <= i < |parts| ==> Utf8(parts[i].key) && Documents.Plain(parts[i].key) && Legal(parts[i].value)
  }

  lemma {:induction false} PartsAreLegal(parts: seq<Part>)
    requires LegalParts(parts)
    ensures LegalFields(Of(parts))
  {
    hide Documents.Plain, Utf8;
    if parts != [] {
      PartsAreLegal(parts[1..]);
    }
  }

  lemma {:induction false} PartIsIntended(parts: seq<Part>, want: bytes)
    requires Distinct(parts)
    ensures forall i :: 0 <= i < |parts| && parts[i].key == want ==>
              Documents.Intended(Of(parts), want)
              == if parts[i].present then Some(Meaning(Concrete(parts[i].value))) else None
    ensures (forall i :: 0 <= i < |parts| ==> parts[i].key != want) ==> Documents.Intended(Of(parts), want) == None
  {
    hide Meaning, Concrete;
    if parts != [] {
      PartIsIntended(parts[1..], want);
      forall i | 0 < i < |parts| ensures parts[i] == parts[1..][i - 1] {
      }
      if parts[0].key == want {
        forall i | 0 <= i < |parts[1..]| ensures parts[1..][i].key != want {
          assert parts[0].key != parts[i + 1].key;
        }
      }
    }
  }

  /** Every member of a document is found under its key, exactly when it was included, and
      no other key is found. */
  lemma DocumentReads(parts: seq<Part>, want: bytes)
    requires Distinct(parts) && LegalParts(parts) && Documents.Plain(want)
    ensures forall i :: 0 <= i < |parts| && parts[i].key == want ==>
              FieldOf(Canonical(JObject(Of(parts))), want)
              == Ok(if parts[i].present then Some(Meaning(Concrete(parts[i].value))) else None)
    ensures (forall i :: 0 <= i < |parts| ==> parts[i].key != want) ==>
              FieldOf(Canonical(JObject(Of(parts))), want) == Ok(None)
  {
    hide FieldOf, Canonical, Documents.Plain, Distinct, LegalParts, Escape, Meaning, Concrete;
    PartsAreLegal(parts);
    PartIsIntended(parts, want);
    Documents.EmittedFieldIsFound(Of(parts), want, [], []);
    Documents.PlainIsUnchanged(want);
    assert [] + Canonical(JObject(Of(parts))) + [] == Canonical(JObject(Of(parts)));
  }

  // ---------------------------------------------------------------- these documents

  /** Rust's `str` is UTF-8, which is all that is asked of the device's own texts. */
  ghost predicate HostIsText(h: Hostinfo) {
    && Utf8(h.hostname) && Utf8(h.ipnVersion) && Utf8(h.os) && Utf8(h.osVersion) && Utf8(h.machine)
    && AllUtf8(h.routableIps)
  }

  ghost predicate AllUtf8(texts: seq<bytes>) {
    forall i :: 0 <= i < |texts| ==> Utf8(texts[i])
  }

  ghost predicate RegisterIsText(r: Register) {
    Utf8(r.nodeKey) && Utf8(Given(r.authKey)) && Utf8(Given(r.followup)) && HostIsText(r.hostinfo)
  }

  ghost predicate MapIsText(m: MapRequest) {
    Utf8(m.nodeKey) && Utf8(m.discoKey) && HostIsText(m.hostinfo) && AllUtf8(m.endpoints)
  }

  lemma {:induction false} ItemsAreLegal(items: seq<Json>)
    requires forall i :: 0 <= i < |items| ==> Legal(items[i])
    ensures LegalList(ListOf(items))
  {
    if items != [] {
      ItemsAreLegal(items[1..]);
    }
  }

  lemma StringsAreLegal(texts: seq<bytes>)
    requires AllUtf8(texts)
    ensures LegalList(Strings(texts))
  {
    hide Utf8;
    ItemsAreLegal(Map((text: bytes) => JString(text), texts));
  }

  lemma NumbersAreLegal(ns: seq<byte>)
    ensures LegalList(Numbers(ns))
  {
    ItemsAreLegal(Map((n: byte) => JNumber(n), ns));
  }

  /** Names that mean themselves in JSON. */
  ghost predicate Name(s: string) {
    forall i :: 0 <= i < |s| ==> '-' <= s[i] <= 'z' && s[i] != '\\'
  }

  lemma NameIsPlain(s: string)
    requires Name(s)
    ensures Utf8(Ascii(s)) && Documents.Plain(Ascii(s))
  {
    AsciiIsUtf8(Ascii(s));
  }

  lemma DecimalIsPlain(n: nat)
    ensures Utf8(Decimal(n)) && Documents.Plain(Decimal(n))
  {
    hide Decimal;
    AsciiIsUtf8(Decimal(n));
  }

  lemma LatencyIsLegal(h: Hostinfo)
    ensures LegalParts([LatencyPart(h)])
  {
    hide Decimal, Utf8;
    DecimalIsPlain(h.preferredDerp);
    NameIsPlain("-v4");
    Utf8Concat(Decimal(h.preferredDerp), Ascii("-v4"));
  }

  ghost predicate Names(names: seq<string>) {
    (forall i :: 0 <= i < |names| ==> Name(names[i])) && Apart(names)
  }

  ghost predicate Apart(names: seq<string>) {
    forall i, j :: 0 <= i < j < |names| ==> names[i] != names[j]
  }

  ghost predicate NamedBy(parts: seq<Part>, names: seq<string>) {
    |parts| == |names| && forall i :: 0 <= i < |parts| ==> parts[i].key == Ascii(names[i]) && Legal(parts[i].value)
  }

  /** Names that are distinct as text are distinct as bytes. */
  lemma SameName(a: string, b: string)
    requires Name(a) && Name(b) && Ascii(a) == Ascii(b)
    ensures a == b
  {
    forall i | 0 <= i < |a| ensures a[i] == b[i] {
      assert Ascii(a)[i] == Ascii(b)[i];
    }
  }

  /** Parts with good names make a readable document. */
  lemma NamedPartsAreGood(parts: seq<Part>, names: seq<string>)
    requires Names(names) && NamedBy(parts, names)
    ensures LegalParts(parts) && Distinct(parts)
  {
    hide Name, Utf8, Documents.Plain;
    forall i | 0 <= i < |parts| ensures Utf8(parts[i].key) && Documents.Plain(parts[i].key) {
      NameIsPlain(names[i]);
    }
    forall i, j | 0 <= i < j < |parts| ensures parts[i].key != parts[j].key {
      if parts[i].key == parts[j].key {
        SameName(names[i], names[j]);
      }
    }
  }

  const REGISTER_NAMES: seq<string> := [
    "Version", "NodeKey", "Auth", "Followup", "Hostinfo", "Ephemeral"]

  const MAP_NAMES: seq<string> := [
    "Version", "Compress", "KeepAlive", "NodeKey", "DiscoKey", "Stream", "OmitPeers", "Endpoints",
    "EndpointTypes", "Hostinfo"]

  const HOST_NAMES: seq<string> := [
    "IPNVersion", "OS", "OSVersion", "Hostname", "Machine", "NetInfo", "RoutableIPs"]

  const NET_NAMES: seq<string> := [
    "MappingVariesByDestIP", "WorkingIPv6", "OSHasIPv6", "WorkingUDP", "HavePortMap", "UPnP", "PMP", "PCP",
    "PreferredDERP", "DERPLatency", "LinkType"]

  lemma NamesAreApart()
    ensures Apart(REGISTER_NAMES) && Apart(MAP_NAMES) && Apart(HOST_NAMES) && Apart(NET_NAMES)
  {
  }

  lemma RegisterNamesAreNames()
    ensures Names(REGISTER_NAMES)
  {
    hide Apart;
    NamesAreApart();
  }

  lemma FirstMapNames()
    ensures forall i :: 0 <= i < 5 ==> Name(MAP_NAMES[i])
  {
  }

  lemma LastMapNames()
    ensures forall i :: 5 <= i < 10 ==> Name(MAP_NAMES[i])
  {
  }

  lemma MapNamesAreNames()
    ensures Names(MAP_NAMES)
  {
    hide Name, Apart;
    NamesAreApart();
    FirstMapNames();
    LastMapNames();
  }

  lemma HostNamesAreNames()
    ensures Names(HOST_NAMES)
  {
    hide Apart;
    NamesAreApart();
  }

  lemma FirstNetNames()
    ensures forall i :: 0 <= i < 4 ==> Name(NET_NAMES[i])
  {
  }

  lemma LastNetNames()
    ensures forall i :: 4 <= i < 11 ==> Name(NET_NAMES[i])
  {
  }

  lemma NetNamesAreNames()
    ensures Names(NET_NAMES)
  {
    hide Name, Apart;
    NamesAreApart();
    FirstNetNames();
    LastNetNames();
  }

  /** What reading a document's member by its name must give. */
  ghost predicate ReadsAs(text: bytes, part: Part) {
    FieldOf(text, part.key) == Ok(if part.present then Some(Meaning(Concrete(part.value))) else None)
  }

  lemma NamedPartIsRead(parts: seq<Part>, names: seq<string>, i: nat)
    requires Names(names) && NamedBy(parts, names) && i < |parts|
    ensures ReadsAs(Canonical(JObject(Of(parts))), parts[i])
  {
    hide FieldOf, Canonical, Names, Meaning, Concrete, Documents.Plain, Distinct;
    NamedPartsAreGood(parts, names);
    DocumentReads(parts, parts[i].key);
  }

  lemma NetInfoIsNamed(h: Hostinfo)
    ensures NamedBy(NetInfo(h), NET_NAMES) && LegalFields(Of(NetInfo(h)))
  {
    hide Utf8, Documents.Plain, LatencyPart, Names, Of;
    LatencyIsLegal(h);
    PartsAreLegal([LatencyPart(h)]);
    AsciiIsUtf8(Ascii("wifi"));
    NetNamesAreNames();
    NamedPartsAreGood(NetInfo(h), NET_NAMES);
    PartsAreLegal(NetInfo(h));
  }

  lemma HostIsNamed(h: Hostinfo)
    requires HostIsText(h)
    ensures NamedBy(HostParts(h), HOST_NAMES) && LegalFields(Of(HostParts(h)))
  {
    hide Utf8, Documents.Plain, NetInfo, Names, Of, AllUtf8, Strings;
    NetInfoIsNamed(h);
    StringsAreLegal(h.routableIps);
    HostNamesAreNames();
    NamedPartsAreGood(HostParts(h), HOST_NAMES);
    PartsAreLegal(HostParts(h));
  }

  lemma RegisterIsNamed(r: Register)
    requires RegisterIsText(r)
    ensures NamedBy(RegisterParts(r), REGISTER_NAMES)
  {
    hide Utf8, Documents.Plain, HostParts, HostIsText, Of;
    HostIsNamed(r.hostinfo);
    AuthIsLegal(Given(r.authKey));
  }

  lemma AuthIsLegal(key: bytes)
    requires Utf8(key)
    ensures LegalFields(Of(AuthParts(key)))
  {
    NameIsPlain("AuthKey");
    PartsAreLegal(AuthParts(key));
  }

  lemma MapIsNamed(m: MapRequest)
    requires MapIsText(m)
    ensures NamedBy(MapParts(m), MAP_NAMES)
  {
    hide Utf8, Documents.Plain, HostParts, HostIsText, Of, AllUtf8, Strings, Numbers;
    HostIsNamed(m.hostinfo);
    StringsAreLegal(m.endpoints);
    NumbersAreLegal(m.endpointTypes);
    EmptyIsText();
  }

  lemma EmptyIsText()
    ensures Utf8([])
  {
  }

  /** Every field of a written registration is read back under its name: present exactly
      when it was set, its text escaped, its nested documents whole. */
  lemma RegistrationReadsBack(r: Register, i: nat)
    requires RegisterIsText(r) && i < |REGISTER_NAMES|
    ensures ReadsAs(RegisterText(r), RegisterParts(r)[i])
  {
    hide Names, NamedBy, ReadsAs, Canonical, RegisterIsText;
    RegisterNamesAreNames();
    RegisterIsNamed(r);
    NamedPartIsRead(RegisterParts(r), REGISTER_NAMES, i);
  }

  /** The same of a netmap request. */
  lemma MapRequestReadsBack(m: MapRequest, i: nat)
    requires MapIsText(m) && i < |MAP_NAMES|
    ensures ReadsAs(MapText(m), MapParts(m)[i])
  {
    hide Names, NamedBy, ReadsAs, Canonical, MapIsText;
    MapNamesAreNames();
    MapIsNamed(m);
    NamedPartIsRead(MapParts(m), MAP_NAMES, i);
  }

  /** And of the host information nested in both, and the network information in that. */
  lemma HostinfoReadsBack(h: Hostinfo, i: nat, j: nat)
    requires HostIsText(h) && i < |HOST_NAMES| && j < |NET_NAMES|
    ensures ReadsAs(Canonical(JObject(Of(HostParts(h)))), HostParts(h)[i])
    ensures ReadsAs(Canonical(JObject(Of(NetInfo(h)))), NetInfo(h)[j])
  {
    hide Names, NamedBy, ReadsAs, Canonical, HostIsText;
    HostNamesAreNames();
    NetNamesAreNames();
    HostIsNamed(h);
    NetInfoIsNamed(h);
    NamedPartIsRead(HostParts(h), HOST_NAMES, i);
    NamedPartIsRead(NetInfo(h), NET_NAMES, j);
  }
}
