/** The requests as the control plane reads them, field by field and by name. */
module RequestFields {
  import opened Bytes
  import opened JsonSyntax
  import opened JsonReader
  import opened JsonExact
  import opened JsonWriter
  import opened Requests
  import Documents = Json
  import Latency

  ghost predicate HasText(text: bytes, name: string, value: bytes) {
    && FieldOf(text, Ascii(name)) == Ok(Some(Str(Escape(value))))
    && Unescape(Escape(value)) == Some(value)
  }

  ghost predicate HasNumber(text: bytes, name: string, n: nat) {
    FieldOf(text, Ascii(name)) == Ok(Some(Number(Decimal(n)))) && FromDecimal(Decimal(n)) == n
  }

  ghost predicate HasFlag(text: bytes, name: string, b: bool) {
    FieldOf(text, Ascii(name)) == Ok(Some(Bool(b)))
  }

  ghost predicate HasNested(text: bytes, name: string, nested: bytes) {
    FieldOf(text, Ascii(name)) == Ok(Some(Raw(nested)))
  }

  ghost predicate Lacks(text: bytes, name: string) {
    FieldOf(text, Ascii(name)) == Ok(None)
  }

  function ObjectOf(parts: seq<Part>): bytes {
    Canonical(JObject(Of(parts)))
  }

  function ArrayOf(list: List): bytes {
    Canonical(JArray(list))
  }

  /** What reading a part by its name amounts to. */
  lemma PartIsRead(text: bytes, part: Part, name: string)
    requires ReadsAs(text, part) && part.key == Ascii(name)
    ensures !part.present ==> Lacks(text, name)
    ensures part.present ==>
              match part.value
              case JString(v) => HasText(text, name, v)
              case JNumber(n) => HasNumber(text, name, n)
              case JBool(b) => HasFlag(text, name, b)
              case JObject(_) => HasNested(text, name, Canonical(part.value))
              case JArray(_) => HasNested(text, name, Canonical(part.value))
              case JRaw(tree) => FieldOf(text, Ascii(name)) == Ok(Some(Meaning(tree)))
  {
    hide FieldOf, Escape, Unescape, Decimal, FromDecimal, Ascii, Render, ConcreteFields, ConcreteList;
    match part.value
    case JString(v) => EscapeIsUndone(v);
    case JNumber(n) => DecimalRoundTrip(n);
    case _ =>
  }

  /** A registration: version and node key always, the rest when it was set. */
  lemma RegistrationIsRead(r: Register)
    requires RegisterIsText(r)
    ensures var t := RegisterText(r);
            && HasNumber(t, "Version", r.capabilityVersion) && HasText(t, "NodeKey", r.nodeKey)
            && HasNested(t, "Hostinfo", ObjectOf(HostParts(r.hostinfo)))
            && (match r.authKey
                case None => Lacks(t, "Auth")
                case Some(key) => exists auth :: HasNested(t, "Auth", auth) && HasText(auth, "AuthKey", key))
            && (match r.followup case None => Lacks(t, "Followup") case Some(url) => HasText(t, "Followup", url))
            && if r.ephemeral then HasFlag(t, "Ephemeral", true) else Lacks(t, "Ephemeral")
  {
    hide Ascii, ReadsAs, RegisterText, RegisterIsText, RegisterParts, HostParts, Of, HasText, HasNumber, HasFlag,
         HasNested, Lacks, AuthParts, Canonical;
    var t, parts := RegisterText(r), RegisterParts(r);
    RegisterPartsListed(r);
    forall i | 0 <= i < 6 ensures ReadsAs(t, parts[i]) {
      RegistrationReadsBack(r, i);
    }
    PartIsRead(t, parts[0], "Version");
    PartIsRead(t, parts[1], "NodeKey");
    PartIsRead(t, parts[2], "Auth");
    PartIsRead(t, parts[3], "Followup");
    PartIsRead(t, parts[4], "Hostinfo");
    PartIsRead(t, parts[5], "Ephemeral");
    if r.authKey.Some? {
      AuthIsRead(r, r.authKey.value);
      assert HasNested(t, "Auth", ObjectOf(AuthParts(r.authKey.value)));
    }
  }

  lemma AuthIsRead(r: Register, key: bytes)
    requires RegisterIsText(r) && r.authKey == Some(key)
    ensures HasText(ObjectOf(AuthParts(key)), "AuthKey", key)
  {
    hide FieldOf, Documents.Plain, Utf8, HostIsText, Canonical, HasText, Meaning, Concrete;
    NameIsPlain("AuthKey");
    DocumentReads(AuthParts(key), Ascii("AuthKey"));
    PartIsRead(ObjectOf(AuthParts(key)), AuthParts(key)[0], "AuthKey");
  }

  /** A netmap request. */
  lemma MapRequestIsRead(m: MapRequest)
    requires MapIsText(m)
    ensures var t := MapText(m);
            && HasNumber(t, "Version", m.capabilityVersion) && HasText(t, "Compress", [])
            && HasFlag(t, "KeepAlive", m.keepAlive) && HasText(t, "NodeKey", m.nodeKey)
            && HasText(t, "DiscoKey", m.discoKey) && HasNested(t, "Hostinfo", ObjectOf(HostParts(m.hostinfo)))
            && (if m.stream then HasFlag(t, "Stream", true) else Lacks(t, "Stream"))
            && (if m.omitPeers then HasFlag(t, "OmitPeers", true) else Lacks(t, "OmitPeers"))
            && (if m.endpoints == [] then Lacks(t, "Endpoints")
                else HasNested(t, "Endpoints", ArrayOf(Strings(m.endpoints))))
            && (if m.endpoints == [] || m.endpointTypes == [] then Lacks(t, "EndpointTypes")
                else HasNested(t, "EndpointTypes", ArrayOf(Numbers(m.endpointTypes))))
  {
    hide Ascii, ReadsAs, MapText, MapIsText, MapParts, HostParts, Of, HasText, HasNumber, HasFlag, HasNested, Lacks,
         Strings, Numbers, Canonical;
    var t, parts := MapText(m), MapParts(m);
    MapPartsListed(m);
    forall i | 0 <= i < 10 ensures ReadsAs(t, parts[i]) {
      MapRequestReadsBack(m, i);
    }
    PartIsRead(t, parts[0], "Version");
    PartIsRead(t, parts[1], "Compress");
    PartIsRead(t, parts[2], "KeepAlive");
    PartIsRead(t, parts[3], "NodeKey");
    PartIsRead(t, parts[4], "DiscoKey");
    PartIsRead(t, parts[5], "Stream");
    PartIsRead(t, parts[6], "OmitPeers");
    PartIsRead(t, parts[7], "Endpoints");
    PartIsRead(t, parts[8], "EndpointTypes");
    PartIsRead(t, parts[9], "Hostinfo");
  }

  /** The host information in both. */
  lemma HostinfoIsRead(h: Hostinfo)
    requires HostIsText(h)
    ensures var t := ObjectOf(HostParts(h));
            && HasText(t, "IPNVersion", h.ipnVersion) && HasText(t, "OS", h.os)
            && HasText(t, "Hostname", h.hostname) && HasText(t, "Machine", h.machine)
            && (if h.osVersion == [] then Lacks(t, "OSVersion") else HasText(t, "OSVersion", h.osVersion))
            && (if h.preferredDerp == 0 then Lacks(t, "NetInfo")
                else HasNested(t, "NetInfo", ObjectOf(NetInfo(h))))
            && (if h.routableIps == [] then Lacks(t, "RoutableIPs")
                else HasNested(t, "RoutableIPs", ArrayOf(Strings(h.routableIps))))
  {
    hide Ascii, ReadsAs, HostIsText, HostParts, NetInfo, Of, HasText, HasNumber, HasFlag, HasNested, Lacks, Strings,
         Canonical;
    var t, parts := ObjectOf(HostParts(h)), HostParts(h);
    HostPartsListed(h);
    forall i | 0 <= i < 7 ensures ReadsAs(t, parts[i]) {
      HostinfoReadsBack(h, i, 0);
    }
    PartIsRead(t, parts[0], "IPNVersion");
    PartIsRead(t, parts[1], "OS");
    PartIsRead(t, parts[2], "OSVersion");
    PartIsRead(t, parts[3], "Hostname");
    PartIsRead(t, parts[4], "Machine");
    PartIsRead(t, parts[5], "NetInfo");
    PartIsRead(t, parts[6], "RoutableIPs");
  }

  /** The network information in that. */
  lemma NetInfoIsRead(h: Hostinfo)
    requires HostIsText(h)
    ensures var t := ObjectOf(NetInfo(h));
            && HasFlag(t, "WorkingUDP", h.workingUdp) && HasNumber(t, "PreferredDERP", h.preferredDerp)
            && HasText(t, "LinkType", Ascii("wifi"))
            && HasFlag(t, "MappingVariesByDestIP", false) && HasFlag(t, "WorkingIPv6", false)
            && HasFlag(t, "OSHasIPv6", false) && HasFlag(t, "HavePortMap", false)
            && HasFlag(t, "UPnP", false) && HasFlag(t, "PMP", false) && HasFlag(t, "PCP", false)
            && (match h.derpLatencyMs
                case None => Lacks(t, "DERPLatency")
                case Some(ms) => HasNested(t, "DERPLatency", ObjectOf([LatencyPart(h)])))
  {
    hide Ascii, ReadsAs, HostIsText, HostParts, NetInfo, Of, HasText, HasNumber, HasFlag, HasNested, Lacks, LatencyPart,
         Canonical;
    var t, parts := ObjectOf(NetInfo(h)), NetInfo(h);
    NetInfoListed(h);
    forall i | 0 <= i < 11 ensures ReadsAs(t, parts[i]) {
      HostinfoReadsBack(h, 0, i);
    }
    PartIsRead(t, parts[0], "MappingVariesByDestIP");
    PartIsRead(t, parts[1], "WorkingIPv6");
    PartIsRead(t, parts[2], "OSHasIPv6");
    PartIsRead(t, parts[3], "WorkingUDP");
    PartIsRead(t, parts[4], "HavePortMap");
    PartIsRead(t, parts[5], "UPnP");
    PartIsRead(t, parts[6], "PMP");
    PartIsRead(t, parts[7], "PCP");
    PartIsRead(t, parts[8], "PreferredDERP");
    PartIsRead(t, parts[9], "DERPLatency");
    PartIsRead(t, parts[10], "LinkType");
  }

  /** The latency, in seconds with three places, under the region's number and `-v4`. */
  lemma LatencyIsRead(h: Hostinfo)
    requires h.derpLatencyMs.Some? && h.derpLatencyMs.value < 10_000
    ensures exists seconds ::
              && FieldOf(ObjectOf([LatencyPart(h)]), Decimal(h.preferredDerp) + Ascii("-v4")) == Ok(Some(Number(seconds)))
              && Latency.Thousandths(seconds) == Some(h.derpLatencyMs.value)
  {
    hide FieldOf, Documents.Plain, Utf8, Canonical, Decimal, Latency.Text, Latency.Thousandths;
    LatencyIsLegal(h);
    assert [LatencyPart(h)][0] == LatencyPart(h);
    DocumentReads([LatencyPart(h)], LatencyPart(h).key);
    Latency.TextReads(h.derpLatencyMs.value);
    var seconds := Latency.Text(h.derpLatencyMs.value);
    assert FieldOf(ObjectOf([LatencyPart(h)]), LatencyPart(h).key) == Ok(Some(Number(seconds)));
  }

  /** The elements of the arrays, one by one. */
  lemma StringsAreRead(texts: seq<bytes>)
    requires AllUtf8(texts)
    ensures ElementsFrom(ArrayOf(Strings(texts)), 0, false) == Map((t: bytes) => Str(Escape(t)), texts)
  {
    hide ElementsFrom, Canonical, Escape;
    StringsAreLegal(texts);
    Documents.EmittedElementsAreYielded(Strings(texts), [], []);
    assert [] + ArrayOf(Strings(texts)) + [] == ArrayOf(Strings(texts));
    ItemValues(Map((t: bytes) => JString(t), texts));
  }

  lemma NumbersAreRead(ns: seq<byte>)
    ensures ElementsFrom(ArrayOf(Numbers(ns)), 0, false) == Map((n: byte) => Number(Decimal(n)), ns)
  {
    hide ElementsFrom, Canonical, Decimal;
    NumbersAreLegal(ns);
    Documents.EmittedElementsAreYielded(Numbers(ns), [], []);
    assert [] + ArrayOf(Numbers(ns)) + [] == ArrayOf(Numbers(ns));
    ItemValues(Map((n: byte) => JNumber(n), ns));
  }

  lemma {:induction false} ItemValues(items: seq<Json>)
    ensures Documents.ElementValues(ListOf(items)) == Map((j: Json) => Meaning(Concrete(j)), items)
  {
    hide Meaning, Concrete;
    if items != [] {
      ItemValues(items[1..]);
    }
  }
}
