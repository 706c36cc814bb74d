/** The DNS-SD name splitter of src/common/dns_utils.cpp: it decomposes a full
    DNS name into host, service instance, service type, subtypes and domain. */
module DnsUtils {
  import opened StdString

  /** The record the splitter fills in. Every field starts empty. */
  datatype DnsNameInfo = DnsNameInfo(
    hostName: string,
    instanceName: string,
    serviceName: string,
    subtypes: seq<string>,
    domain: string)

  const EmptyInfo := DnsNameInfo("", "", "", [], "")

  /** The classification predicates of the record (declared in the header,
      which is not part of this model; assumed to test field emptiness). */
  predicate IsHost(info: DnsNameInfo) { info.hostName != "" }
  predicate IsService(info: DnsNameInfo) { info.serviceName != "" && info.instanceName == "" }
  predicate IsServiceInstance(info: DnsNameInfo) { info.instanceName != "" }

  /** The status codes the wrappers return. */
  datatype OtbrError = ErrorNone | ErrorInvalidArgs

  predicate NameEndsWithDot(name: string)
  {
    |name| > 0 && name[|name| - 1] == '.'
  }

  /** Appends a '.' to a name that does not already end with one. */
  function AppendDotIfMissing(name: string): (r: string)
    ensures NameEndsWithDot(r)
    ensures NameEndsWithDot(name) ==> r == name
    ensures !NameEndsWithDot(name) ==> r == name + "."
  {
    if NameEndsWithDot(name) then name else name + "."
  }

  const UdpLabel: string := "._udp"
  const TcpLabel: string := "._tcp"

  /** Where the transport label starts: the last "._udp", or, when there is
      none, the last "._tcp". */
  function TransportPos(fullName: string): (r: Option<nat>)
    ensures r.Some? ==> OccursAt(fullName, UdpLabel, r.value) || OccursAt(fullName, TcpLabel, r.value)
    ensures r.None? <==> (forall j :: !OccursAt(fullName, UdpLabel, j)) && (forall j :: !OccursAt(fullName, TcpLabel, j))
    ensures (exists j :: OccursAt(fullName, UdpLabel, j)) ==>
              r.Some? && OccursAt(fullName, UdpLabel, r.value) &&
              forall j :: r.value < j ==> !OccursAt(fullName, UdpLabel, j)
    ensures (forall j :: !OccursAt(fullName, UdpLabel, j)) && r.Some? ==>
              OccursAt(fullName, TcpLabel, r.value) &&
              forall j :: r.value < j ==> !OccursAt(fullName, TcpLabel, j)
  {
    var udp := RFind(fullName, UdpLabel);
    if udp.Some? then udp else RFind(fullName, TcpLabel)
  }

  /** The comma-separated pieces of `s`: the text before the first comma,
      between consecutive commas, and after the last comma. */
  function Pieces(s: string): (r: seq<string>)
    ensures |r| >= 1
  {
    if s == [] then [""]
    else
      ConsPieces(s[0], Pieces(s[1..]))
  }

  /** What the subtype splitter appends: every piece except the text before
      the first comma. */
  function SubtypesOf(s: string): seq<string>
  {
    Pieces(s)[1..]
  }

  /** The host or bare-domain case: no transport label in `fullName`. */
  function SplitHostName(fullName: string): (info: DnsNameInfo)
    requires NameEndsWithDot(fullName)
  {
    match FindFirstOf(fullName, '.', 0)
    case None => assert false; EmptyInfo
    case Some(dotPos) =>
      EmptyInfo.(hostName := fullName[..dotPos],
                 domain := Substr(fullName, dotPos + 1, |fullName| - dotPos - 1))
  }

  /** The instance name and service type, for a transport label at
      `transportPos`: split at the last dot before the label, if any. */
  function InstanceAndService(fullName: string, transportPos: nat): (string, string)
    requires transportPos + 5 <= |fullName|
  {
    var dotPos := if transportPos > 0 then FindLastOf(fullName, '.', transportPos - 1) else None;
    match dotPos
    case None => ("", Substr(fullName, 0, transportPos + 5))
    case Some(dot) => (fullName[..dot], Substr(fullName, dot + 1, transportPos + 4 - dot))
  }

  /** The dot that separates the service type from the domain: the first dot
      after the leading dot of the transport label. It always exists, because
      the name ends with a dot, and it lies behind the whole label. */
  function DomainPos(fullName: string, transportPos: nat): (domainPos: nat)
    requires NameEndsWithDot(fullName)
    requires OccursAt(fullName, UdpLabel, transportPos) || OccursAt(fullName, TcpLabel, transportPos)
    ensures transportPos + 5 <= domainPos < |fullName| && fullName[domainPos] == '.'
    ensures forall j :: transportPos + 1 <= j < domainPos ==> fullName[j] != '.'
  {
    var found := FindFirstOf(fullName, '.', transportPos + 1);
    var transport := fullName[transportPos..transportPos + 5];
    assert transport == UdpLabel || transport == TcpLabel;
    assert forall k :: 1 <= k < 5 ==> fullName[transportPos + k] == transport[k];
    assert found.Some? by {
      assert fullName[|fullName| - 1] == '.';
    }
    found.value
  }

  /** The subtypes: the comma-separated pieces from the first comma of the
      name, cut off `domainPos - commaPos` characters later, where that
      length is an unsigned `size_t` difference. */
  function SubtypesBefore(fullName: string, domainPos: nat): seq<string>
  {
    match FindFirstOf(fullName, ',', 0)
    case None => []
    case Some(commaPos) => SubtypesOf(Substr(fullName, commaPos, SizeSub(domainPos, commaPos)))
  }

  /** The service or service-instance case: a transport label starts at
      `transportPos`. */
  function SplitServiceName(fullName: string, transportPos: nat): DnsNameInfo
    requires NameEndsWithDot(fullName)
    requires OccursAt(fullName, UdpLabel, transportPos) || OccursAt(fullName, TcpLabel, transportPos)
  {
    var (instanceName, serviceName) := InstanceAndService(fullName, transportPos);
    var domainPos := DomainPos(fullName, transportPos);
    EmptyInfo.(instanceName := instanceName, serviceName := serviceName,
               subtypes := SubtypesBefore(fullName, domainPos), domain := fullName[domainPos + 1..])
  }

  /** Splits a full DNS name. The name is first given a trailing dot; the
      domain of the result always ends with a dot. */
  function SplitFullDnsName(name: string): (info: DnsNameInfo)
    ensures NameEndsWithDot(info.domain)
  {
    var fullName := AppendDotIfMissing(name);
    var info :=
      match TransportPos(fullName)
      case None => SplitHostName(fullName)
      case Some(transportPos) => SplitServiceName(fullName, transportPos);
    info.(domain := AppendDotIfMissing(info.domain))
  }

  /** Appends the comma-separated subtypes of `subtypes` to `list`, the
      caller's vector; the text before the first comma is skipped. */
  method SplitSubtypes(subtypes: string, list: seq<string>) returns (newList: seq<string>)
    ensures newList == list + SubtypesOf(subtypes)
  {
    newList := list;
    var prevCommaPos: Option<nat> := FindFirstOf(subtypes, ',', 0);
    var subtypesNumber: int := CountOf(subtypes, ',');
    SplitStart(subtypes, list);
    while subtypesNumber > 0
      invariant SplitProgress(subtypes, list, newList, prevCommaPos, subtypesNumber)
    {
      var prev := prevCommaPos.value;
      var nextCommaPos := FindFirstOf(subtypes, ',', prev + 1);
      if nextCommaPos.None? {
        // The last subtype runs to the end of the string.
        SplitLast(subtypes, list, newList, prev, subtypesNumber);
        newList := newList + [subtypes[prev + 1..]];
      } else {
        // The current subtype ends at the next comma.
        var next := nextCommaPos.value;
        SplitNext(subtypes, list, newList, prev, next, subtypesNumber);
        newList := newList + [Substr(subtypes, prev + 1, next - prev - 1)];
        prevCommaPos := nextCommaPos;
      }
      subtypesNumber := subtypesNumber - 1;
    }
  }

  /** Splits `fullName` and, when it is a service instance name, hands out its
      instance name, service type, subtypes and domain. */
  method SplitFullServiceInstanceName(fullName: string, instanceName: string, serviceType: string,
                                      subtypes: seq<string>, domain: string)
    returns (error: OtbrError, instanceNameOut: string, serviceTypeOut: string,
             subtypesOut: seq<string>, domainOut: string)
    ensures var info := SplitFullDnsName(fullName);
      error == (if IsServiceInstance(info) then ErrorNone else ErrorInvalidArgs)
    ensures error == ErrorInvalidArgs ==>
      instanceNameOut == instanceName && serviceTypeOut == serviceType &&
      subtypesOut == subtypes && domainOut == domain
    ensures var info := SplitFullDnsName(fullName);
      error == ErrorNone ==>
        instanceNameOut == info.instanceName && serviceTypeOut == info.serviceName &&
        subtypesOut == info.subtypes && domainOut == info.domain
    ensures var normalised := AppendDotIfMissing(fullName);
      error == ErrorNone ==>
        instanceNameOut != "" && CountOf(serviceTypeOut, '.') == 1 &&
        |instanceNameOut| + 1 + |serviceTypeOut| <= |normalised| &&
        instanceNameOut + "." + serviceTypeOut == normalised[..|instanceNameOut| + 1 + |serviceTypeOut|] &&
        NameEndsWithDot(domainOut)
  {
    error := ErrorNone;
    instanceNameOut, serviceTypeOut, subtypesOut, domainOut := instanceName, serviceType, subtypes, domain;
    var info := SplitFullDnsName(fullName);
    if !IsServiceInstance(info) {
      error := ErrorInvalidArgs;
      return;
    }
    ServiceInstanceParts(fullName);
    instanceNameOut := info.instanceName;
    serviceTypeOut := info.serviceName;
    subtypesOut := info.subtypes;
    domainOut := info.domain;
  }

  /** Splits `fullName` and, when it is a service name, hands out its service
      type and domain. */
  method SplitFullServiceName(fullName: string, serviceType: string, domain: string)
    returns (error: OtbrError, serviceTypeOut: string, domainOut: string)
    ensures var info := SplitFullDnsName(fullName);
      error == (if IsService(info) then ErrorNone else ErrorInvalidArgs)
    ensures error == ErrorInvalidArgs ==> serviceTypeOut == serviceType && domainOut == domain
    ensures var info := SplitFullDnsName(fullName);
      error == ErrorNone ==> serviceTypeOut == info.serviceName && domainOut == info.domain
    ensures var normalised := AppendDotIfMissing(fullName);
      error == ErrorNone ==>
        5 <= |serviceTypeOut| < |normalised| &&
        (serviceTypeOut == normalised[..|serviceTypeOut|] ||
         "." + serviceTypeOut == normalised[..|serviceTypeOut| + 1]) &&
        (serviceTypeOut[|serviceTypeOut| - 5..] == UdpLabel || serviceTypeOut[|serviceTypeOut| - 5..] == TcpLabel) &&
        NameEndsWithDot(domainOut)
  {
    error := ErrorNone;
    serviceTypeOut, domainOut := serviceType, domain;
    var info := SplitFullDnsName(fullName);
    if !IsService(info) {
      error := ErrorInvalidArgs;
      return;
    }
    ServiceParts(fullName);
    serviceTypeOut := info.serviceName;
    domainOut := info.domain;
  }

  /** Splits `fullName` and, when it is a host name, hands out its host name
      and domain. */
  method SplitFullHostName(fullName: string, hostName: string, domain: string)
    returns (error: OtbrError, hostNameOut: string, domainOut: string)
    ensures var info := SplitFullDnsName(fullName);
      error == (if IsHost(info) then ErrorNone else ErrorInvalidArgs)
    ensures error == ErrorInvalidArgs ==> hostNameOut == hostName && domainOut == domain
    ensures var info := SplitFullDnsName(fullName);
      error == ErrorNone ==> hostNameOut == info.hostName && domainOut == info.domain
    ensures var normalised := AppendDotIfMissing(fullName);
      error == ErrorNone ==>
        hostNameOut != "" && '.' !in hostNameOut && |hostNameOut| < |normalised| &&
        normalised[..|hostNameOut| + 1] == hostNameOut + "." && NameEndsWithDot(domainOut)
  {
    error := ErrorNone;
    hostNameOut, domainOut := hostName, domain;
    var info := SplitFullDnsName(fullName);
    if !IsHost(info) {
      error := ErrorInvalidArgs;
      return;
    }
    HostParts(fullName);
    hostNameOut := info.hostName;
    domainOut := info.domain;
  }

  // Lemmas about the comma split.

  lemma AppendAssoc<T>(a: seq<T>, b: seq<T>, c: seq<T>)
    ensures (a + b) + c == a + (b + c)
  {
  }

  /** A comma at `p` splits the pieces of `s` into those of the text before it
      and those of the text after it. */
  lemma {:induction false} PiecesSplitAt(s: string, p: nat)
    requires p < |s| && s[p] == ','
    ensures Pieces(s) == Pieces(s[..p]) + Pieces(s[p + 1..])
  {
    if p == 0 {
      assert s[..0] == "";
      PiecesCons(s[0], s[1..]);
      assert s == [s[0]] + s[1..];
    } else {
      var tail, head := s[1..], s[..p];
      assert tail[p - 1] == ',';
      PiecesSplitAt(tail, p - 1);
      assert tail[p..] == s[p + 1..];
      assert s == [s[0]] + tail;
      assert head == [s[0]] + tail[..p - 1];
      PiecesCons(s[0], tail);
      PiecesCons(s[0], tail[..p - 1]);
      ConsPiecesAppend(s[0], Pieces(tail[..p - 1]), Pieces(tail[p..]));
    }
  }

  /** How one more leading character changes the pieces. */
  lemma PiecesCons(c: char, t: string)
    ensures Pieces([c] + t) == ConsPieces(c, Pieces(t))
  {
    assert ([c] + t)[1..] == t;
  }

  function ConsPieces(c: char, ps: seq<string>): seq<string>
    requires |ps| >= 1
  {
    if c == ',' then [""] + ps else [[c] + ps[0]] + ps[1..]
  }

  lemma ConsPiecesAppend(c: char, ps: seq<string>, qs: seq<string>)
    requires |ps| >= 1
    ensures ConsPieces(c, ps + qs) == ConsPieces(c, ps) + qs
  {
    if c != ',' {
      assert (ps + qs)[1..] == ps[1..] + qs;
    }
  }

  /** Text without a comma is a single piece. */
  lemma {:induction false} PiecesWithoutComma(s: string)
    requires forall j :: 0 <= j < |s| ==> s[j] != ','
    ensures Pieces(s) == [s]
  {
    if s != [] {
      var tail := s[1..];
      assert forall j :: 0 <= j < |tail| ==> tail[j] == s[j + 1];
      PiecesWithoutComma(tail);
      assert [s[0]] + tail == s;
    }
  }

  /** There is one piece more than there are commas. */
  lemma {:induction false} PiecesCount(s: string)
    ensures |Pieces(s)| == CountOf(s, ',') + 1
  {
    if s != [] {
      PiecesCount(s[1..]);
    }
  }

  /** No piece contains a comma. */
  lemma {:induction false} PiecesHaveNoComma(s: string)
    ensures forall i :: 0 <= i < |Pieces(s)| ==> ',' !in Pieces(s)[i]
  {
    if s != [] {
      PiecesHaveNoComma(s[1..]);
    }
  }

  /** Joining the pieces with commas gives back the text. */
  lemma {:induction false} PiecesJoin(s: string)
    ensures Join(Pieces(s), ",") == s
  {
    if s != [] {
      PiecesJoin(s[1..]);
      var rest := Pieces(s[1..]);
      if s[0] == ',' {
        assert Join([""] + rest, ",") == "" + "," + Join(rest, ",") by {
          assert ([""] + rest)[1..] == rest;
        }
        assert s == [s[0]] + s[1..];
      } else if |rest| == 1 {
        assert s == [s[0]] + s[1..];
      } else {
        var p := [[s[0]] + rest[0]] + rest[1..];
        assert p[1..] == rest[1..];
        assert Join(rest, ",") == rest[0] + "," + Join(rest[1..], ",");
        assert s == [s[0]] + s[1..];
      }
    }
  }

  /** The pieces are the only comma-free sequence that joins to `s`. */
  lemma {:induction false} PiecesUnique(s: string, xs: seq<string>)
    requires |xs| >= 1 && Join(xs, ",") == s
    requires forall i :: 0 <= i < |xs| ==> ',' !in xs[i]
    ensures xs == Pieces(s)
  {
    if |xs| == 1 {
      PiecesWithoutComma(s);
    } else {
      var p := |xs[0]|;
      assert s == xs[0] + "," + Join(xs[1..], ",");
      assert s[..p] == xs[0] && s[p + 1..] == Join(xs[1..], ",");
      PiecesSplitAt(s, p);
      PiecesWithoutComma(xs[0]);
      PiecesUnique(s[p + 1..], xs[1..]);
    }
  }

  lemma FirstCommaSplit(s: string, c: nat)
    requires c < |s| && s[c] == ','
    requires forall j :: 0 <= j < c ==> s[j] != ','
    ensures Pieces(s[..c]) == [s[..c]]
    ensures CountOf(s, ',') == 1 + CountOf(s[c + 1..], ',')
    ensures SubtypesOf(s) == Pieces(s[c + 1..])
  {
    var head := s[..c];
    assert forall j :: 0 <= j < |head| ==> head[j] == s[j];
    PiecesWithoutComma(head);
    CountOfAbsent(head, ',');
    CountAt(s, c, ',');
    PiecesSplitAt(s, c);
  }

  /** The loop invariant of the subtype splitter. While `n` commas are left
      to visit, `prevCommaPos` is the comma before them and `newList` holds the
      pieces between the commas already passed; once none is left,
      `newList` holds every subtype. */
  ghost predicate SplitProgress(s: string, list: seq<string>, newList: seq<string>, prevCommaPos: Option<nat>, n: int)
  {
    n >= 0 &&
    (n > 0 ==>
      prevCommaPos.Some? && prevCommaPos.value < |s| && s[prevCommaPos.value] == ',' &&
      n == 1 + CountOf(s[prevCommaPos.value + 1..], ',') &&
      newList == list + Pieces(s[..prevCommaPos.value])[1..]) &&
    (n == 0 ==> newList == list + SubtypesOf(s))
  }

  /** Before the first iteration: nothing appended, and one comma to visit
      per comma of the string. */
  lemma SplitStart(s: string, list: seq<string>)
    ensures SplitProgress(s, list, list, FindFirstOf(s, ',', 0), CountOf(s, ','))
  {
    match FindFirstOf(s, ',', 0)
    case None =>
      CountOfAbsent(s, ',');
      PiecesWithoutComma(s);
    case Some(c) =>
      FirstCommaSplit(s, c);
  }

  /** The last iteration: no comma follows `prev`, so the piece after it
      runs to the end and completes the list. */
  lemma SplitLast(s: string, list: seq<string>, newList: seq<string>, prev: nat, n: int)
    requires n > 0 && SplitProgress(s, list, newList, Some(prev), n)
    requires FindFirstOf(s, ',', prev + 1).None?
    ensures SplitProgress(s, list, newList + [s[prev + 1..]], Some(prev), n - 1)
  {
    var tail := s[prev + 1..];
    assert forall j :: 0 <= j < |tail| ==> tail[j] == s[prev + 1 + j];
    CountOfAbsent(tail, ',');
    PiecesSplitAt(s, prev);
    PiecesWithoutComma(tail);
    AppendAssoc(list, Pieces(s[..prev])[1..], [tail]);
  }

  /** A middle iteration: the piece up to the next comma is appended and one
      comma fewer is left. */
  lemma SplitNext(s: string, list: seq<string>, newList: seq<string>, prev: nat, next: nat, n: int)
    requires n > 0 && SplitProgress(s, list, newList, Some(prev), n)
    requires FindFirstOf(s, ',', prev + 1) == Some(next)
    ensures SplitProgress(s, list, newList + [Substr(s, prev + 1, next - prev - 1)], Some(next), n - 1)
  {
    var piece := s[prev + 1..next];
    assert Substr(s, prev + 1, next - prev - 1) == piece;
    PiecesNext(s, prev, next);
    AppendAssoc(list, Pieces(s[..prev])[1..], [piece]);
  }

  lemma PiecesNext(s: string, prev: nat, next: nat)
    requires prev < next < |s| && s[prev] == ',' && s[next] == ','
    requires forall j :: prev + 1 <= j < next ==> s[j] != ','
    ensures Pieces(s[..next])[1..] == Pieces(s[..prev])[1..] + [s[prev + 1..next]]
    ensures CountOf(s[prev + 1..], ',') == 1 + CountOf(s[next + 1..], ',')
  {
    var t := s[..next];
    assert t[prev] == ',';
    PiecesSplitAt(t, prev);
    assert t[..prev] == s[..prev];
    assert t[prev + 1..] == s[prev + 1..next];
    PiecesWithoutComma(s[prev + 1..next]);
    var u := s[prev + 1..];
    assert u[next - prev - 1] == ',';
    FirstCommaSplit(u, next - prev - 1);
    assert u[next - prev..] == s[next + 1..];
  }

  // What the splitter guarantees about the parts it produces, stated in
  // terms of the normalised name (the input with a trailing dot).

  /** The subtype splitter's output: one entry per comma, no entry holds a
      comma, and a comma followed by the entries joined with commas gives
      back the text from the first comma on. */
  lemma SubtypesOfSpec(s: string)
    ensures |SubtypesOf(s)| == CountOf(s, ',')
    ensures forall i :: 0 <= i < |SubtypesOf(s)| ==> ',' !in SubtypesOf(s)[i]
    ensures FindFirstOf(s, ',', 0).None? ==> SubtypesOf(s) == []
    ensures FindFirstOf(s, ',', 0).Some? ==>
              "," + Join(SubtypesOf(s), ",") == s[FindFirstOf(s, ',', 0).value..]
  {
    PiecesCount(s);
    PiecesHaveNoComma(s);
    match FindFirstOf(s, ',', 0)
    case None =>
      PiecesWithoutComma(s);
    case Some(c) =>
      FirstCommaSplit(s, c);
      PiecesJoin(s[c + 1..]);
      assert s[c..] == [','] + s[c + 1..];
  }

  /** Adding the trailing dot before splitting changes nothing: a name
      without one splits exactly as the name with one. */
  lemma NormalisationInvisible(name: string)
    requires !NameEndsWithDot(name)
    ensures SplitFullDnsName(name) == SplitFullDnsName(name + ".")
  {
    assert AppendDotIfMissing(name + ".") == name + ".";
  }

  /** The host shape: without a transport label the name splits at its first
      dot into the host name and the domain; nothing else is set. */
  lemma HostShape(name: string)
    requires TransportPos(AppendDotIfMissing(name)).None?
    ensures var fullName, info := AppendDotIfMissing(name), SplitFullDnsName(name);
      |info.hostName| < |fullName| && fullName[..|info.hostName|] == info.hostName &&
      fullName[|info.hostName|] == '.' && '.' !in info.hostName
    ensures var fullName, info := AppendDotIfMissing(name), SplitFullDnsName(name);
      var rest := fullName[|info.hostName| + 1..];
      info.domain == if rest == "" then "." else rest
    ensures var info := SplitFullDnsName(name);
      info.instanceName == "" && info.serviceName == "" && info.subtypes == []
  {
    var fullName := AppendDotIfMissing(name);
    var dotPos := FindFirstOf(fullName, '.', 0).value;
    var raw := SplitHostName(fullName);
    assert SplitFullDnsName(name) == raw.(domain := AppendDotIfMissing(raw.domain));
    assert raw.hostName == fullName[..dotPos] && raw.domain == fullName[dotPos + 1..];
    assert forall k :: 0 <= k < dotPos ==> raw.hostName[k] == fullName[k];
    SuffixOfDottedName(fullName, dotPos + 1);
  }

  /** The instance name and service type for a transport label at
      `transportPos` of the normalised name. */
  lemma InstanceAndServiceSpec(fullName: string, transportPos: nat)
    requires OccursAt(fullName, UdpLabel, transportPos) || OccursAt(fullName, TcpLabel, transportPos)
    ensures var (instanceName, serviceName) := InstanceAndService(fullName, transportPos);
      (forall j :: 0 <= j < transportPos ==> fullName[j] != '.') ==>
        instanceName == "" && serviceName == fullName[..transportPos + 5]
    ensures var (instanceName, serviceName) := InstanceAndService(fullName, transportPos);
      (exists j :: 0 <= j < transportPos && fullName[j] == '.') ==>
        instanceName + "." + serviceName == fullName[..transportPos + 5] &&
        CountOf(serviceName, '.') == 1
    ensures var serviceName := InstanceAndService(fullName, transportPos).1;
      |serviceName| >= 5 && serviceName[|serviceName| - 5..] == fullName[transportPos..transportPos + 5]
  {
    var dotPos := if transportPos > 0 then FindLastOf(fullName, '.', transportPos - 1) else None;
    match dotPos
    case None =>
      var serviceName := fullName[..transportPos + 5];
      assert serviceName[|serviceName| - 5..] == fullName[transportPos..transportPos + 5];
    case Some(dot) =>
      InstanceSplit(fullName, transportPos, dot);
  }

  /** The service-instance case: `dot` is the last dot before the label. */
  lemma InstanceSplit(fullName: string, transportPos: nat, dot: nat)
    requires OccursAt(fullName, UdpLabel, transportPos) || OccursAt(fullName, TcpLabel, transportPos)
    requires dot < transportPos && fullName[dot] == '.'
    requires forall j :: dot < j < transportPos ==> fullName[j] != '.'
    ensures var serviceName := fullName[dot + 1..transportPos + 5];
      fullName[..dot] + "." + serviceName == fullName[..transportPos + 5] &&
      CountOf(serviceName, '.') == 1 &&
      serviceName[|serviceName| - 5..] == fullName[transportPos..transportPos + 5]
  {
    var transport := fullName[transportPos..transportPos + 5];
    var before := fullName[dot + 1..transportPos];
    assert fullName[dot + 1..transportPos + 5] == before + transport;
    assert fullName[..transportPos + 5] == fullName[..dot] + "." + (before + transport);
    assert (before + transport)[|before|..] == transport;
    assert CountOf(before, '.') == 0 by {
      assert forall k :: 0 <= k < |before| ==> before[k] == fullName[dot + 1 + k];
      CountOfAbsent(before, '.');
    }
    TransportDots(transport);
    CountOfAppend(before, transport, '.');
  }

  /** A transport label holds exactly one dot. */
  lemma TransportDots(transport: string)
    requires transport == UdpLabel || transport == TcpLabel
    ensures CountOf(transport, '.') == 1
  {
    assert transport[1..][1..][1..][1..][1..] == [];
  }

  /** The two shapes with a transport label: the service type runs through
      the label; without a dot before the label there is no instance name,
      otherwise the instance name is everything before the last such dot and
      the service type holds exactly one dot. */
  lemma ServiceShape(name: string, transportPos: nat)
    requires TransportPos(AppendDotIfMissing(name)) == Some(transportPos)
    ensures var fullName, info := AppendDotIfMissing(name), SplitFullDnsName(name);
      info.hostName == "" &&
      ((forall j :: 0 <= j < transportPos ==> fullName[j] != '.') ==>
        info.instanceName == "" && info.serviceName == fullName[..transportPos + 5])
    ensures var fullName, info := AppendDotIfMissing(name), SplitFullDnsName(name);
      (exists j :: 0 <= j < transportPos && fullName[j] == '.') ==>
        info.instanceName + "." + info.serviceName == fullName[..transportPos + 5] &&
        CountOf(info.serviceName, '.') == 1
    ensures var serviceName := SplitFullDnsName(name).serviceName;
      |serviceName| >= 5 &&
      (serviceName[|serviceName| - 5..] == UdpLabel || serviceName[|serviceName| - 5..] == TcpLabel)
  {
    var fullName := AppendDotIfMissing(name);
    InstanceAndServiceSpec(fullName, transportPos);
    var transport := fullName[transportPos..transportPos + 5];
    assert transport == UdpLabel || transport == TcpLabel;
  }

  /** The subtypes: empty without a comma; otherwise the comma-separated
      pieces from the first comma up to the domain dot, or, when the first
      comma lies behind that dot, up to the end of the name (the `size_t`
      length wraps around). */
  lemma SubtypesBeforeSpec(fullName: string, domainPos: nat)
    requires domainPos < |fullName| <= SizeModulus
    ensures FindFirstOf(fullName, ',', 0).None? ==> SubtypesBefore(fullName, domainPos) == []
    ensures var commaPos := FindFirstOf(fullName, ',', 0);
      commaPos.Some? && commaPos.value < domainPos ==>
        SubtypesBefore(fullName, domainPos) == SubtypesOf(fullName[commaPos.value..domainPos])
    ensures var commaPos := FindFirstOf(fullName, ',', 0);
      commaPos.Some? && domainPos < commaPos.value ==>
        SubtypesBefore(fullName, domainPos) == SubtypesOf(fullName[commaPos.value..])
  {
    match FindFirstOf(fullName, ',', 0)
    case None =>
    case Some(commaPos) =>
      var count := SizeSub(domainPos, commaPos);
      if commaPos < domainPos {
        assert count == domainPos - commaPos;
      } else if domainPos < commaPos {
        assert count == SizeModulus - (commaPos - domainPos);
        assert |fullName| <= commaPos + count;
      }
  }

  /** The domain is the text after the domain dot (with the trailing dot
      repaired when that text is empty), and the subtypes are as
      `SubtypesBeforeSpec` describes, for every name short enough to be a
      `std::string`. */
  lemma DomainAndSubtypes(name: string, transportPos: nat)
    requires TransportPos(AppendDotIfMissing(name)) == Some(transportPos)
    ensures var fullName := AppendDotIfMissing(name);
      var rest := fullName[DomainPos(fullName, transportPos) + 1..];
      SplitFullDnsName(name).domain == if rest == "" then "." else rest
    ensures var fullName := AppendDotIfMissing(name);
      SplitFullDnsName(name).subtypes == SubtypesBefore(fullName, DomainPos(fullName, transportPos))
  {
    var fullName := AppendDotIfMissing(name);
    var raw := SplitServiceName(fullName, transportPos);
    assert SplitFullDnsName(name) == raw.(domain := AppendDotIfMissing(raw.domain));
    SuffixOfDottedName(fullName, DomainPos(fullName, transportPos) + 1);
  }

  /** Every suffix of a name that ends with a dot is empty or ends with a dot. */
  lemma SuffixOfDottedName(s: string, i: nat)
    requires NameEndsWithDot(s) && i <= |s|
    ensures AppendDotIfMissing(s[i..]) == if i == |s| then "." else s[i..]
  {
    if i < |s| {
      assert s[i..][|s| - i - 1] == s[|s| - 1];
    }
  }

  /** The shapes exclude each other, and a name has none of them exactly
      when it has no transport label and begins with a dot (an empty host
      label). */
  lemma ShapeClassification(name: string)
    ensures var info := SplitFullDnsName(name);
      !(IsHost(info) && IsService(info)) && !(IsHost(info) && IsServiceInstance(info)) &&
      !(IsService(info) && IsServiceInstance(info))
    ensures var fullName, info := AppendDotIfMissing(name), SplitFullDnsName(name);
      (!IsHost(info) && !IsService(info) && !IsServiceInstance(info)) <==>
        TransportPos(fullName).None? && fullName[0] == '.'
  {
    var fullName := AppendDotIfMissing(name);
    match TransportPos(fullName)
    case None =>
      HostShape(name);
    case Some(transportPos) =>
      ServiceShape(name, transportPos);
  }

  /** A name that splits into a host name: the host name is the text before
      the first dot, a single label. */
  lemma HostParts(name: string)
    requires IsHost(SplitFullDnsName(name))
    ensures var normalised, hostName := AppendDotIfMissing(name), SplitFullDnsName(name).hostName;
      '.' !in hostName && |hostName| < |normalised| && normalised[..|hostName| + 1] == hostName + "."
  {
    var normalised := AppendDotIfMissing(name);
    match TransportPos(normalised)
    case None =>
      HostShape(name);
      var hostName := SplitFullDnsName(name).hostName;
      assert normalised[..|hostName| + 1] == normalised[..|hostName|] + [normalised[|hostName|]];
    case Some(transportPos) =>
      ServiceShape(name, transportPos);
  }

  /** A name that splits into a service type: the type ends with the
      transport label and begins the name, or follows a leading dot (an
      empty instance label). */
  lemma ServiceParts(name: string)
    requires IsService(SplitFullDnsName(name))
    ensures var normalised, serviceName := AppendDotIfMissing(name), SplitFullDnsName(name).serviceName;
      5 <= |serviceName| < |normalised| &&
      (serviceName == normalised[..|serviceName|] || "." + serviceName == normalised[..|serviceName| + 1]) &&
      (serviceName[|serviceName| - 5..] == UdpLabel || serviceName[|serviceName| - 5..] == TcpLabel)
  {
    var normalised := AppendDotIfMissing(name);
    match TransportPos(normalised)
    case None =>
      HostShape(name);
    case Some(transportPos) =>
      ServiceShape(name, transportPos);
      DomainAndSubtypes(name, transportPos);
  }

  /** A name that splits into a service instance: instance name, a dot and
      the service type are a prefix of the name, and the type holds one dot. */
  lemma ServiceInstanceParts(name: string)
    ensures var normalised, info := AppendDotIfMissing(name), SplitFullDnsName(name);
      IsServiceInstance(info) ==>
      CountOf(info.serviceName, '.') == 1 &&
      |info.instanceName| + 1 + |info.serviceName| <= |normalised| &&
      info.instanceName + "." + info.serviceName ==
        normalised[..|info.instanceName| + 1 + |info.serviceName|]
  {
    var normalised := AppendDotIfMissing(name);
    match TransportPos(normalised)
    case None =>
      HostShape(name);
    case Some(transportPos) =>
      ServiceShape(name, transportPos);
  }

  /** The splitter keeps empty input empty and splits ",a,b,c" into its three
      labels in order. */
  lemma SubtypesExample()
    ensures SubtypesOf(",a,b,c") == ["a", "b", "c"]
    ensures SubtypesOf("") == []
  {
    var pieces := ["", "a", "b", "c"];
    assert Join(pieces, ",") == ",a,b,c" by {
      assert pieces[1..][1..][1..] == ["c"];
      assert pieces[1..][1..] == ["b", "c"];
      assert pieces[1..] == ["a", "b", "c"];
    }
    PiecesUnique(",a,b,c", pieces);
  }
}
