/** The kuma.io/service tag: "<name>_<namespace>_svc_<port>" on Kubernetes, free-form on Universal. */
module ServiceTag {
  import opened Text

  const SVC := "_svc_"
  const SVC_SUFFIX := "_svc"

  datatype Identity = Identity(name: string, namespace: string)

  /** Splits "<name>_<namespace>" at its last underscore. */
  function SplitName(s: string): Identity {
    var u := LastIndex(s, "_");
    if u == -1 then Identity(s, "") else Identity(s[..u], s[u + 1..])
  }

  /** ParseKumaServiceTag. */
  function Parse(value: string): (id: Identity)
    // The decoded name of an encoded tag is strictly shorter than the tag.
    ensures id.namespace != "" ==> |id.name| + 6 < |value| && '_' !in id.namespace
  {
    if value == "*" || value == "" then Identity("", "")
    else
      var idx := LastIndex(value, SVC);
      if idx == -1 then Identity(value, "")
      else
        NoUnderscoreAfter(value[..idx]);
        SplitName(value[..idx])
  }

  lemma NoUnderscoreAfter(s: string)
    ensures '_' !in SplitName(s).namespace
  {
    var u := LastIndex(s, "_");
    if u != -1 {
      forall j | u < j < |s| ensures s[j] != '_' { SingleCharOccurs(s, '_', j); }
    }
  }

  predicate Encoded(value: string) {
    Parse(value).namespace != ""
  }

  /** A ref to a MeshService by a name the control plane generated from a tag. */
  predicate GeneratedName(kind: string, name: string) {
    kind == "MeshService" && Encoded(name)
  }

  datatype Decoded = Decoded(name: string, namespace: string, port: int)

  /** decodeServiceTagPort. */
  function DecodePort(value: string): Option<Decoded> {
    var idx := LastIndex(value, SVC);
    if idx == -1 then None
    else
      var port := Atoi(value[idx + |SVC|..]);
      if port.None? || port.value < 1 || port.value > 65535 then None
      else
        var id := Parse(value);
        if id.name == "" || id.namespace == "" then None
        else Some(Decoded(id.name, id.namespace, port.value))
  }

  /** parseGatewaySvcTag. */
  function ParseGateway(tag: string): Identity {
    if Contains(tag, SVC) then Parse(tag)
    else if |tag| >= |SVC_SUFFIX| && tag[|tag| - |SVC_SUFFIX|..] == SVC_SUFFIX then
      SplitName(tag[..|tag| - |SVC_SUFFIX|])
    else Identity("", "")
  }

  /** What the control plane writes for a Service port. */
  function Encode(name: string, namespace: string, numeral: string): string {
    name + "_" + namespace + SVC + numeral
  }

  /** What gatewayInstanceServiceTag writes for a MeshGatewayInstance without an explicit tag. */
  function EncodeGateway(name: string, namespace: string): string {
    name + "_" + namespace + SVC_SUFFIX
  }

  // ---- round trips ---------------------------------------------------------

  lemma MarkerPosition(head: string, tail: string)
    requires '_' !in tail
    ensures LastIndex(head + SVC + tail, SVC) == |head|
  {
    var s := head + SVC + tail;
    assert s[|head|..|head| + 5] == SVC;
    forall j | |head| < j
      ensures !OccursAt(s, SVC, j)
    {
      // A later marker would end on a character of tail, which is no underscore.
      if j + 5 <= |s| {
        assert s[j..j + 5][4] == s[j + 4] == tail[j - 1 - |head|];
        assert SVC[4] == '_';
      }
    }
    LastIndexIs(s, SVC, |head|);
  }

  lemma SplitJoined(name: string, namespace: string)
    requires '_' !in namespace
    ensures SplitName(name + "_" + namespace) == Identity(name, namespace)
  {
    LastIndexOfChar(name, '_', namespace);
    assert "_" == ['_'];
    var s := name + "_" + namespace;
    assert s[..|name|] == name && s[|name| + 1..] == namespace;
  }

  /** Parsing inverts encoding for every name, however many markers the name itself contains. */
  lemma ParseInvertsEncode(name: string, namespace: string, numeral: string)
    requires '_' !in namespace && '_' !in numeral
    ensures Parse(Encode(name, namespace, numeral)) == Identity(name, namespace)
  {
    var v := Encode(name, namespace, numeral);
    var head := name + "_" + namespace;
    assert v == head + SVC + numeral;
    MarkerPosition(head, numeral);
    assert v[..|head|] == head;
    SplitJoined(name, namespace);
  }

  /** A tag without the marker is a name; so is what precedes the marker when it holds no underscore. */
  lemma ParseFreeForm(name: string, numeral: string)
    requires '_' !in numeral && name !in {"", "*"}
    ensures !Contains(name, SVC) ==> Parse(name) == Identity(name, "")
    ensures '_' !in name ==> Parse(name + SVC + numeral) == Identity(name, "")
  {
    MarkerPosition(name, numeral);
    assert "_" == ['_'] && (name + SVC + numeral)[..|name|] == name;
    NoCharNoIndex(name, '_');
  }

  /** Decoding inverts encoding exactly when the code's own guards on name and port pass. */
  lemma DecodeInvertsEncode(name: string, namespace: string, port: nat)
    requires '_' !in namespace
    ensures DecodePort(Encode(name, namespace, Decimal(port))) == Some(Decoded(name, namespace, port))
       <==> name != "" && namespace != "" && 1 <= port <= 65535
  {
    var v := Encode(name, namespace, Decimal(port));
    assert '_' !in Decimal(port);
    ParseInvertsEncode(name, namespace, Decimal(port));
    var head := name + "_" + namespace;
    assert v == head + SVC + Decimal(port);
    MarkerPosition(head, Decimal(port));
    assert v[|head| + 5..] == Decimal(port);
    AtoiDecimal(port);
  }

  lemma SplitParts(s: string)
    requires SplitName(s).namespace != ""
    ensures var id := SplitName(s); s == id.name + "_" + id.namespace && '_' !in id.namespace
  {
    NoUnderscoreAfter(s);
    var u := LastIndex(s, "_");
    assert s[u..u + 1] == "_";
  }

  /** A successful decode re-encodes to its input, up to the spelling of the port numeral. */
  lemma DecodeReencodes(value: string)
    requires DecodePort(value).Some?
    ensures var d := DecodePort(value).value;
            && d.name != "" && d.namespace != "" && '_' !in d.namespace && 1 <= d.port <= 65535
            && exists numeral :: value == Encode(d.name, d.namespace, numeral) && Atoi(numeral) == Some(d.port)
  {
    var d := DecodePort(value).value;
    var idx := LastIndex(value, SVC);
    var numeral := value[idx + 5..];
    var head := value[..idx];
    assert value == head + SVC + numeral by { assert value[idx..idx + 5] == SVC; }
    assert head == d.name + "_" + d.namespace && '_' !in d.namespace by { SplitParts(head); }
    assert value == Encode(d.name, d.namespace, numeral);
  }

  /** The port-less gateway form round-trips exactly when the tag is free of the "_svc_" marker.
      That marker appears even with an underscore-free name, when the namespace is "svc". */
  lemma GatewayRoundTrip(name: string, namespace: string)
    requires '_' !in namespace
    ensures ParseGateway(EncodeGateway(name, namespace)) == Identity(name, namespace)
       <==> !Contains(EncodeGateway(name, namespace), SVC)
  {
    var tag := EncodeGateway(name, namespace);
    var head := name + "_" + namespace;
    assert tag == head + SVC_SUFFIX;
    assert tag[..|tag| - 4] == head && tag[|tag| - 4..] == SVC_SUFFIX;
    var idx := LastIndex(tag, SVC);
    if idx == -1 {
      SplitJoined(name, namespace);
    } else {
      // The decoded parts come from before the marker, so they are too short to be all of head.
      assert tag[idx..idx + 5][4] == '_' == tag[idx + 4];
      assert idx + 4 <= |head|;
      var id := Parse(tag);
      assert |id.name| + |id.namespace| <= idx;
    }
  }

  /** A tag that follows neither form names nothing; one without a namespace only the gateway. */
  lemma GatewayFreeForm(tag: string)
    ensures !Contains(tag, SVC) && (|tag| < 4 || tag[|tag| - 4..] != "_svc") ==> ParseGateway(tag) == Identity("", "")
    ensures '_' !in tag ==> ParseGateway(tag + "_svc") == Identity(tag, "")
  {
    if '_' !in tag {
      var s := tag + "_svc";
      assert s[|s| - 4..] == "_svc" && s[..|s| - 4] == tag;
      NoCharNoIndex(tag, '_');
      assert "_" == ['_'];
      MarkerEnds(s, LastIndex(s, SVC));
    }
  }

  lemma MarkerEnds(s: string, i: int)
    ensures OccursAt(s, SVC, i) ==> 0 <= i < i + 4 < |s| && s[i] == '_' && s[i + 4] == '_'
  {
    if OccursAt(s, SVC, i) { assert s[i..i + 5][0] == SVC[0] == '_' && s[i..i + 5][4] == SVC[4] == '_'; }
  }

  lemma GatewayNamespaceSvc()
    ensures ParseGateway(EncodeGateway("edge", "svc")) == Identity("edge", "")
  {
    var tag := "edge_svc_svc";
    assert EncodeGateway("edge", "svc") == tag;
    MarkerPosition("edge", "svc");
    assert tag == "edge" + SVC + "svc";
    NoCharNoIndex("edge", '_');
    assert "_" == ['_'];
    assert tag[..4] == "edge";
  }
}
