/** What the code generator decides about a service: ids, the interaction each method uses on the
    client, the list each method is dispatched from on the server, and the path between them. */
module GeneratedService {
  import opened Wrappers
  import opened JavaInt
  import opened Hashing
  import opened Sizing
  import opened ProbeTable
  import opened RequestHandlingRSocket
  import ProteusMetadata

  datatype MethodDescriptor =
    MethodDescriptor(fullName: seq<byte>, clientStreaming: bool, serverStreaming: bool, outputFieldCount: nat)

  datatype ServiceDescriptor =
    ServiceDescriptor(package: seq<byte>, name: seq<byte>, methods: seq<MethodDescriptor>)

  function IdOf(name: seq<byte>): int32 {
    Fnv1a(FNV_32_SEED, UntilNul(name))
  }

  function MethodId(rpc: MethodDescriptor): int32 {
    IdOf(rpc.fullName)
  }

  // ---- classification --------------------------------------------------------------------

  /** The interaction in which the generated client sends a method's calls. */
  function ClientInteraction(rpc: MethodDescriptor): Interaction {
    if rpc.clientStreaming then RequestChannel
    else if rpc.serverStreaming then RequestStream
    else if rpc.outputFieldCount > 0 then RequestResponse
    else FireAndForget
  }

  /** What the four interactions carry. */
  predicate ManyRequests(interaction: Interaction) {
    interaction.RequestChannel?
  }

  predicate ManyReplies(interaction: Interaction) {
    interaction.RequestStream? || interaction.RequestChannel?
  }

  predicate NoReply(interaction: Interaction) {
    interaction.FireAndForget?
  }

  /** The interaction carries what the descriptor asks for: many requests exactly for a streaming
      client, many replies exactly for a stream in either direction, and no reply exactly for two
      single messages of which the answer has no fields. */
  lemma InteractionFits(rpc: MethodDescriptor)
    ensures ManyRequests(ClientInteraction(rpc)) <==> rpc.clientStreaming
    ensures ManyReplies(ClientInteraction(rpc)) <==> rpc.clientStreaming || rpc.serverStreaming
    ensures NoReply(ClientInteraction(rpc))
       <==> !rpc.clientStreaming && !rpc.serverStreaming && rpc.outputFieldCount == 0
  {
  }

  /** The methods whose calls arrive in an interaction, in declaration order. */
  function SentAs(methods: seq<MethodDescriptor>, interaction: Interaction): seq<MethodDescriptor> {
    if methods == [] then []
    else
      var first := if ClientInteraction(methods[0]) == interaction then [methods[0]] else [];
      first + SentAs(methods[1..], interaction)
  }

  datatype MethodLists = MethodLists(
    fireAndForget: seq<MethodDescriptor>,
    requestResponse: seq<MethodDescriptor>,
    requestStream: seq<MethodDescriptor>,
    requestChannel: seq<MethodDescriptor>)
  {
    function For(interaction: Interaction): seq<MethodDescriptor> {
      match interaction
      case FireAndForget => fireAndForget
      case RequestResponse => requestResponse
      case RequestStream => requestStream
      case RequestChannel => requestChannel
    }

    function Without(interaction: Interaction): MethodLists
      requires For(interaction) != []
    {
      match interaction
      case FireAndForget => this.(fireAndForget := fireAndForget[1..])
      case RequestResponse => this.(requestResponse := requestResponse[1..])
      case RequestStream => this.(requestStream := requestStream[1..])
      case RequestChannel => this.(requestChannel := requestChannel[1..])
    }
  }

  function ListsOf(methods: seq<MethodDescriptor>): MethodLists {
    MethodLists(SentAs(methods, FireAndForget), SentAs(methods, RequestResponse),
                SentAs(methods, RequestStream), SentAs(methods, RequestChannel))
  }

  lemma {:induction false} SentAsAppend(methods: seq<MethodDescriptor>, m: MethodDescriptor, interaction: Interaction)
    ensures SentAs(methods + [m], interaction)
         == SentAs(methods, interaction) + (if ClientInteraction(m) == interaction then [m] else [])
  {
    hide ClientInteraction;
    var all := methods + [m];
    if methods == [] {
      assert all == [m] && all[1..] == [];
      assert SentAs(all[1..], interaction) == [];
    } else {
      assert all[0] == methods[0] && all[1..] == methods[1..] + [m];
      SentAsAppend(methods[1..], m, interaction);
      assert SentAs(all[1..], interaction) == SentAs(methods[1..] + [m], interaction);
    }
  }

  /** The server's lists hold exactly the methods that the client sends in each interaction. */
  method ServerLists(methods: seq<MethodDescriptor>) returns (lists: MethodLists)
    ensures lists == ListsOf(methods)
  {
    var fireAndForget: seq<MethodDescriptor> := [];
    var requestResponse: seq<MethodDescriptor> := [];
    var requestStream: seq<MethodDescriptor> := [];
    var requestChannel: seq<MethodDescriptor> := [];
    for i := 0 to |methods|
      invariant MethodLists(fireAndForget, requestResponse, requestStream, requestChannel) == ListsOf(methods[..i])
    {
      var rpc := methods[i];
      assert methods[..i + 1] == methods[..i] + [rpc];
      SentAsAppend(methods[..i], rpc, FireAndForget);
      SentAsAppend(methods[..i], rpc, RequestResponse);
      SentAsAppend(methods[..i], rpc, RequestStream);
      SentAsAppend(methods[..i], rpc, RequestChannel);
      if rpc.clientStreaming {
        requestChannel := requestChannel + [rpc];
      } else if rpc.serverStreaming {
        requestStream := requestStream + [rpc];
      } else if rpc.outputFieldCount > 0 {
        requestResponse := requestResponse + [rpc];
      } else {
        fireAndForget := fireAndForget + [rpc];
      }
    }
    assert methods[..|methods|] == methods;
    lists := MethodLists(fireAndForget, requestResponse, requestStream, requestChannel);
  }

  /** Draw methods back from the fronts of the lists, in the given order of interactions. */
  function Merge(order: seq<Interaction>, lists: MethodLists): Option<seq<MethodDescriptor>> {
    if order == [] then (if lists == MethodLists([], [], [], []) then Some([]) else None)
    else if lists.For(order[0]) == [] then None
    else
      match Merge(order[1..], lists.Without(order[0]))
      case None => None
      case Some(rest) => Some([lists.For(order[0])[0]] + rest)
  }

  function InteractionsOf(methods: seq<MethodDescriptor>): (order: seq<Interaction>)
    ensures |order| == |methods|
  {
    seq(|methods|, i requires 0 <= i < |methods| => ClientInteraction(methods[i]))
  }

  /** The first method is at the front of its list; the rest of the lists are those of the rest. */
  lemma FirstIsInFront(methods: seq<MethodDescriptor>)
    requires methods != []
    ensures var lists, k := ListsOf(methods), ClientInteraction(methods[0]);
            lists.For(k) != [] && lists.For(k)[0] == methods[0] && lists.Without(k) == ListsOf(methods[1..])
  {
    hide ClientInteraction;
    var k := ClientInteraction(methods[0]);
    assert SentAs(methods, k) == [methods[0]] + SentAs(methods[1..], k);
    assert SentAs(methods, k)[1..] == SentAs(methods[1..], k);
    forall j: Interaction | j != k
      ensures SentAs(methods, j) == SentAs(methods[1..], j)
    {
      assert SentAs(methods, j) == [] + SentAs(methods[1..], j);
    }
  }

  lemma NoMethods(methods: seq<MethodDescriptor>)
    requires |methods| == 0
    ensures ListsOf(methods) == MethodLists([], [], [], [])
  {
  }

  /** The four lists partition the methods in order: nothing lost, duplicated or reordered. */
  lemma {:induction false} ListsPartition(methods: seq<MethodDescriptor>)
    ensures Merge(InteractionsOf(methods), ListsOf(methods)) == Some(methods)
  {
    hide ClientInteraction, SentAs, ListsOf;
    var order, lists := InteractionsOf(methods), ListsOf(methods);
    if |methods| == 0 {
      NoMethods(methods);
    } else {
      var tail := methods[1..];
      FirstIsInFront(methods);
      assert order[1..] == InteractionsOf(tail);
      ListsPartition(tail);
      assert lists.Without(order[0]) == ListsOf(tail);
      assert [methods[0]] + tail == methods;
    }
  }

  lemma {:induction false} SentAsMembers(methods: seq<MethodDescriptor>, interaction: Interaction, m: MethodDescriptor)
    ensures m in SentAs(methods, interaction) <==> m in methods && ClientInteraction(m) == interaction
  {
    if methods != [] {
      SentAsMembers(methods[1..], interaction, m);
      assert methods == [methods[0]] + methods[1..];
    }
  }

  // ---- dispatch on the server ------------------------------------------------------------

  datatype Outcome =
    | Invoked(service: ServiceDescriptor, rpc: MethodDescriptor)
    | NotImplemented(interaction: Interaction)
    | Unsupported
    | Failed(error: ProteusMetadata.BufferError)

  /** The generated `switch`: the case with the given id, if there is one. */
  function Switch(list: seq<MethodDescriptor>, id: int32): Option<MethodDescriptor> {
    if list == [] then None
    else if MethodId(list[0]) == id then Some(list[0])
    else Switch(list[1..], id)
  }

  function Dispatch(service: ServiceDescriptor, interaction: Interaction, metadata: Metadata): Outcome {
    var list := ListsOf(service.methods).For(interaction);
    if list == [] then NotImplemented(interaction)
    else
      var id := ProteusMetadata.MethodId(metadata);
      if id.Failure? then Failed(id.error)
      else
        match Switch(list, id.value)
        case None => Unsupported
        case Some(m) => Invoked(service, m)
  }

  /** The generated server of a service, as something to register. */
  function Server(service: ServiceDescriptor): ProteusService<Outcome> {
    ProteusService(IdOf(service.package), IdOf(service.name),
                   (interaction, metadata) => Dispatch(service, interaction, metadata))
  }

  /** Java rejects a `switch` with two equal case labels. */
  ghost predicate DistinctIds(list: seq<MethodDescriptor>) {
    forall i, j :: 0 <= i < j < |list| ==> MethodId(list[i]) != MethodId(list[j])
  }

  lemma {:induction false} SwitchSelects(list: seq<MethodDescriptor>, id: int32)
    ensures Switch(list, id).None? <==> forall m :: m in list ==> MethodId(m) != id
    ensures Switch(list, id).Some? ==> Switch(list, id).value in list && MethodId(Switch(list, id).value) == id
  {
    if list != [] {
      SwitchSelects(list[1..], id);
      assert list == [list[0]] + list[1..];
    }
  }

  lemma DistinctIdsIdentify(list: seq<MethodDescriptor>, m: MethodDescriptor, m': MethodDescriptor)
    requires DistinctIds(list) && m in list && m' in list && MethodId(m) == MethodId(m')
    ensures m == m'
  {
    var i :| 0 <= i < |list| && list[i] == m;
    var j :| 0 <= j < |list| && list[j] == m';
    assert i == j;
  }

  ghost predicate Serves(service: ServiceDescriptor, interaction: Interaction, m: MethodDescriptor) {
    m in service.methods && ClientInteraction(m) == interaction
  }

  lemma ListServes(service: ServiceDescriptor, interaction: Interaction)
    ensures var list := ListsOf(service.methods).For(interaction);
            && (forall m :: m in list <==> Serves(service, interaction, m))
            && (list == [] <==> forall m :: !Serves(service, interaction, m))
  {
    var list := ListsOf(service.methods).For(interaction);
    assert list == SentAs(service.methods, interaction);
    forall m
      ensures m in list <==> Serves(service, interaction, m)
    {
      SentAsMembers(service.methods, interaction, m);
    }
    assert list != [] ==> list[0] in list;
  }

  /** When a server refuses: it has no method in the interaction, or the header is too short. */
  lemma DispatchRefuses(service: ServiceDescriptor, interaction: Interaction, metadata: Metadata)
    ensures Dispatch(service, interaction, metadata) == NotImplemented(interaction)
       <==> forall m :: !Serves(service, interaction, m)
    ensures Dispatch(service, interaction, metadata) == Failed(ProteusMetadata.IndexOutOfBounds)
       <==> |metadata| < 14 && exists m :: Serves(service, interaction, m)
  {
    ListServes(service, interaction);
    ProteusMetadata.FieldsRead(metadata);
    hide ListsOf, Serves, ProteusMetadata.MethodId;
  }

  /** Otherwise bytes 10 to 13 decide: a method in the interaction with the number there as its id
      is invoked, and if there is none, exactly then, the call is unsupported. */
  lemma DispatchByBytes(service: ServiceDescriptor, interaction: Interaction, metadata: Metadata, id: int32)
    requires ProteusMetadata.NumberAt(metadata, 10, Unsigned32(id))
    requires exists m :: Serves(service, interaction, m)
    ensures var r := Dispatch(service, interaction, metadata);
            && (r == Unsupported <==> forall m :: Serves(service, interaction, m) ==> MethodId(m) != id)
            && (r != Unsupported ==> r.Invoked? && r.service == service
                                     && Serves(service, interaction, r.rpc) && MethodId(r.rpc) == id)
  {
    ListServes(service, interaction);
    ProteusMetadata.FieldsRead(metadata);
    assert ProteusMetadata.MethodId(metadata) == Success(id);
    SwitchSelects(ListsOf(service.methods).For(interaction), id);
    hide ListsOf, Serves, ProteusMetadata.MethodId, Switch, MethodId;
  }

  // ---- from client call to handler -------------------------------------------------------

  /** The header the generated client writes for a call. */
  function CallHeader(service: ServiceDescriptor, m: MethodDescriptor, metadata: seq<byte>): Metadata
    requires |metadata| < TWO_31
  {
    ProteusMetadata.Header(IdOf(service.package), IdOf(service.name), MethodId(m), metadata)
  }

  /** The service's server is registered, and nothing after it under the ids its clients use. */
  ghost predicate RegisteredLast(history: seq<ProteusService<Outcome>>, service: ServiceDescriptor) {
    exists i :: 0 <= i < |history| && history[i] == Server(service)
      && forall j :: i < j < |history| ==> !IsUnder(history[j], IdOf(service.package), IdOf(service.name))
  }

  /** A server is registered under the ids that the clients of its service put in their headers. */
  lemma ServerIsFound(history: seq<ProteusService<Outcome>>, service: ServiceDescriptor)
    requires RegisteredLast(history, service)
    ensures LastUnder(history, (IdOf(service.package), IdOf(service.name))) == Some(Server(service))
  {
    hide IdOf;
    var pair := (IdOf(service.package), IdOf(service.name));
    var i :| 0 <= i < |history| && history[i] == Server(service)
             && forall j :: i < j < |history| ==> !IsUnder(history[j], pair.0, pair.1);
    assert PairOf(history[i]) == pair;
    FoundIff(history, pair);
    var last := FoundIsLast(history, pair);
    assert IsUnder(history[last], pair.0, pair.1);
  }

  /** A call encoded by the client of a service, when the server generated from the same service
      has been registered and not replaced, is handled by the method that was called. */
  lemma CallReachesItsMethod(history: seq<ProteusService<Outcome>>, service: ServiceDescriptor,
                             m: MethodDescriptor, metadata: seq<byte>)
    requires |metadata| < TWO_31 && m in service.methods
    requires RegisteredLast(history, service)
    requires DistinctIds(SentAs(service.methods, ClientInteraction(m)))
    ensures Route(history, ClientInteraction(m), CallHeader(service, m, metadata)) == Handled(Invoked(service, m))
  {
    ServerIsFound(history, service);
    var k, h := ClientInteraction(m), CallHeader(service, m, metadata);
    HeaderFields(service, m, metadata);
    var list := SentAs(service.methods, k);
    SentAsMembers(service.methods, k, m);
    SwitchSelects(list, MethodId(m));
    DistinctIdsIdentify(list, m, Switch(list, MethodId(m)).value);
    assert ListsOf(service.methods).For(k) == list;
  }

  /** Whatever server is registered, a call only ever reaches a method of it with the called
      method's id and interaction, and reaches one exactly when that server has one. */
  lemma CallReachesOnlyItsId(history: seq<ProteusService<Outcome>>, service: ServiceDescriptor,
                             m: MethodDescriptor, metadata: seq<byte>, other: ServiceDescriptor)
    requires |metadata| < TWO_31
    requires LastUnder(history, (IdOf(service.package), IdOf(service.name))) == Some(Server(other))
    ensures var r := Route(history, ClientInteraction(m), CallHeader(service, m, metadata));
            && r.Handled?
            && (r.result.Invoked? <==>
                  exists m' :: m' in other.methods && MethodId(m') == MethodId(m)
                    && ClientInteraction(m') == ClientInteraction(m))
            && (r.result.Invoked? ==>
                  && r.result.service == other && r.result.rpc in other.methods
                  && MethodId(r.result.rpc) == MethodId(m)
                  && ClientInteraction(r.result.rpc) == ClientInteraction(m))
  {
    var k := ClientInteraction(m);
    HeaderFields(service, m, metadata);
    var list := SentAs(other.methods, k);
    assert ListsOf(other.methods).For(k) == list;
    SwitchSelects(list, MethodId(m));
    forall m' {
      SentAsMembers(other.methods, k, m');
    }
  }

  lemma HeaderFields(service: ServiceDescriptor, m: MethodDescriptor, metadata: seq<byte>)
    requires |metadata| < TWO_31
    ensures var h := CallHeader(service, m, metadata);
            && ProteusMetadata.NamespaceId(h) == Success(IdOf(service.package))
            && ProteusMetadata.ServiceId(h) == Success(IdOf(service.name))
            && ProteusMetadata.MethodId(h) == Success(MethodId(m))
  {
    var h := CallHeader(service, m, metadata);
    assert h + [] == h;
    ProteusMetadata.HeaderRoundTrip(IdOf(service.package), IdOf(service.name), MethodId(m), metadata, []);
  }

  /** A whole call: the client hashes the three names, allocates a header buffer and encodes into
      it, and the socket handles the payload. It reaches the method exactly when there is no
      metadata to send; otherwise encoding fails on the client. */
  method Call(socket: RequestHandlingRSocket<Outcome>, service: ServiceDescriptor, m: MethodDescriptor,
              metadata: ProteusMetadata.ByteBuf) returns (r: Result<Response<Outcome>, ProteusMetadata.BufferError>)
    requires socket.Valid() && metadata.Valid() && m in service.methods
    requires RegisteredLast(socket.history, service)
    requires DistinctIds(SentAs(service.methods, ClientInteraction(m)))
    modifies metadata`readerIndex
    ensures r == (if old(metadata.Readable()) == [] then Success(Handled(Invoked(service, m)))
                  else Failure(ProteusMetadata.IndexOutOfBounds))
  {
    hide LastUnder, Route, Server, SentAs, InForce, RegisteredLast, ProteusMetadata.Header;
    ghost var history := socket.history;
    var namespaceId := HashWord(service.package, FNV_32_SEED);
    var serviceId := HashWord(service.name, FNV_32_SEED);
    var methodId := HashWord(m.fullName, FNV_32_SEED);
    var header := ProteusMetadata.EncodeInAllocated(namespaceId, serviceId, methodId, metadata);
    if header.Failure? {
      return Failure(header.error);
    }
    CallReachesItsMethod(history, service, m, []);
    var response := socket.Handle(ClientInteraction(m), header.value);
    return Success(response);
  }

  /** Register services in order, unless the largest map refuses to grow. */
  method RegisterAll(socket: RequestHandlingRSocket<Outcome>, services: seq<ProteusService<Outcome>>)
      returns (done: bool)
    requires socket.Valid()
    modifies socket, socket.registeredServices.Repr
    ensures fresh(socket.registeredServices.Repr - old(socket.registeredServices.Repr))
    ensures done ==> socket.Valid() && socket.history == old(socket.history) + services
    ensures !done ==> |old(socket.history)| + |services|
                      > Threshold(Sizing.MAX_CAPACITY, socket.registeredServices.loadFactor)
  {
    hide Represents, Table, Threshold, InForce;
    ghost var before := socket.history;
    for i := 0 to |services|
      invariant socket.Valid() && fresh(socket.registeredServices.Repr - old(socket.registeredServices.Repr))
      invariant socket.history == before + services[..i]
    {
      var added := socket.AddService(services[i]);
      if added.Failure? {
        return false;
      }
      assert services[..i + 1] == services[..i] + [services[i]];
    }
    assert services[..|services|] == services;
    return true;
  }

  lemma RegisteredAndKept(before: seq<ProteusService<Outcome>>, service: ServiceDescriptor,
                          later: seq<ProteusService<Outcome>>)
    requires forall s :: s in later ==> !IsUnder(s, IdOf(service.package), IdOf(service.name))
    ensures RegisteredLast(before + ([Server(service)] + later), service)
  {
    hide IdOf, Server, IsUnder;
    var history := before + ([Server(service)] + later);
    assert history[|before|] == Server(service);
    forall j | |before| < j < |history|
      ensures !IsUnder(history[j], IdOf(service.package), IdOf(service.name))
    {
      assert history[j] == later[j - |before| - 1];
    }
  }

  /** Register a service's server, then any others under other pairs of ids, and call a method of
      it without metadata: the method is reached, unless the largest map refused to grow. */
  method ServeAndCall(socket: RequestHandlingRSocket<Outcome>, service: ServiceDescriptor,
                      later: seq<ProteusService<Outcome>>, m: MethodDescriptor)
      returns (r: Option<Result<Response<Outcome>, ProteusMetadata.BufferError>>)
    requires socket.Valid() && m in service.methods
    requires forall s :: s in later ==> !IsUnder(s, IdOf(service.package), IdOf(service.name))
    requires DistinctIds(SentAs(service.methods, ClientInteraction(m)))
    modifies socket, socket.registeredServices.Repr
    ensures r == None || r == Some(Success(Handled(Invoked(service, m))))
    ensures r == None ==> |old(socket.history)| + 1 + |later|
                          > Threshold(Sizing.MAX_CAPACITY, socket.registeredServices.loadFactor)
  {
    hide IdOf, Server, SentAs, DistinctIds, RegisteredLast, InForce, Threshold;
    RegisteredAndKept(socket.history, service, later);
    var done := RegisterAll(socket, [Server(service)] + later);
    if !done {
      return None;
    }
    var noMetadata := new ProteusMetadata.ByteBuf(0);
    var called := Call(socket, service, m, noMetadata);
    return Some(called);
  }
}
