/** Routing: a payload's header names a namespace and a service; the service registered last under
    that pair handles the payload. */
module RequestHandlingRSocket {
  import opened Wrappers
  import opened JavaInt
  import opened Sizing
  import opened ProbeTable
  import opened BiInt2ObjectMap
  import ProteusMetadata

  /** The four RSocket interactions. */
  datatype Interaction = FireAndForget | RequestResponse | RequestStream | RequestChannel

  type Metadata = seq<byte>

  /** A registered service: its two ids, and what it does with a payload it is handed. */
  datatype ProteusService<R> =
    ProteusService(namespaceId: int32, serviceId: int32, handler: (Interaction, Metadata) -> R)

  /** A handler's result, or an error signal; a channel raises a malformed header instead. */
  datatype Response<R> =
    | Handled(result: R)
    | ServiceNotFound(namespaceId: int32, serviceId: int32)
    | Malformed(error: ProteusMetadata.BufferError)
    | Raised(error: ProteusMetadata.BufferError)

  // ---- what routing should do ------------------------------------------------------------

  function PairOf<R>(service: ProteusService<R>): Pair {
    (service.namespaceId, service.serviceId)
  }

  /** The service registered last under a pair, scanning the history from its end. */
  function LastUnder<R>(history: seq<ProteusService<R>>, pair: Pair): Option<ProteusService<R>> {
    if history == [] then None
    else if PairOf(history[|history| - 1]) == pair then Some(history[|history| - 1])
    else LastUnder(history[..|history| - 1], pair)
  }

  /** The registrations in force after a history. */
  function InForce<R>(history: seq<ProteusService<R>>): map<Pair, ProteusService<R>> {
    if history == [] then map[]
    else InForce(history[..|history| - 1])[PairOf(history[|history| - 1]) := history[|history| - 1]]
  }

  lemma {:induction false} InForceIsLast<R>(history: seq<ProteusService<R>>, pair: Pair)
    ensures Lookup(InForce(history), pair) == LastUnder(history, pair)
  {
    if history != [] {
      InForceIsLast(history[..|history| - 1], pair);
    }
  }

  /** Found exactly when something was registered under the pair ... */
  lemma {:induction false} FoundIff<R>(history: seq<ProteusService<R>>, pair: Pair)
    ensures LastUnder(history, pair).Some? <==> exists i :: 0 <= i < |history| && PairOf(history[i]) == pair
  {
    if history != [] {
      var n := |history| - 1;
      FoundIff(history[..n], pair);
      assert forall i :: 0 <= i < n ==> history[i] == history[..n][i];
      if PairOf(history[n]) != pair && LastUnder(history, pair).Some? {
        var i :| 0 <= i < n && PairOf(history[..n][i]) == pair;
        assert PairOf(history[i]) == pair;
      }
    }
  }

  /** ... and then it is the registration that no later one under the same pair replaced. */
  lemma {:induction false} FoundIsLast<R>(history: seq<ProteusService<R>>, pair: Pair) returns (i: nat)
    requires LastUnder(history, pair).Some?
    ensures i < |history| && history[i] == LastUnder(history, pair).value && PairOf(history[i]) == pair
    ensures forall j :: i < j < |history| ==> PairOf(history[j]) != pair
  {
    i := |history| - 1;
    if PairOf(history[i]) != pair {
      var n := i;
      i := FoundIsLast(history[..n], pair);
      assert forall j :: i < j < n ==> PairOf(history[..n][j]) != pair && history[..n][j] == history[j];
    }
  }

  function Route<R>(history: seq<ProteusService<R>>, interaction: Interaction, metadata: Metadata): Response<R> {
    var namespaceId, serviceId := ProteusMetadata.NamespaceId(metadata), ProteusMetadata.ServiceId(metadata);
    if namespaceId.Failure? then Refusal(interaction, namespaceId.error)
    else if serviceId.Failure? then Refusal(interaction, serviceId.error)
    else
      match LastUnder(history, (namespaceId.value, serviceId.value))
      case None => ServiceNotFound(namespaceId.value, serviceId.value)
      case Some(service) => Handled(service.handler(interaction, metadata))
  }

  function Refusal<R>(interaction: Interaction, error: ProteusMetadata.BufferError): Response<R> {
    if interaction.RequestChannel? then Raised(error) else Malformed(error)
  }

  /** A header too short to hold both ids is refused, in a channel by raising the error. */
  lemma ShortHeaderIsRefused<R>(history: seq<ProteusService<R>>, interaction: Interaction, metadata: Metadata)
    ensures var r := Route(history, interaction, metadata); |metadata| < 10 <==> (r.Malformed? || r.Raised?)
    ensures |metadata| < 10 ==>
              Route(history, interaction, metadata)
              == if interaction == RequestChannel then Raised(ProteusMetadata.IndexOutOfBounds)
                 else Malformed(ProteusMetadata.IndexOutOfBounds)
  {
    ProteusMetadata.FieldsRead(metadata);
  }

  /** Otherwise bytes 2 to 5 and 6 to 9 decide: the payload goes to the last registration under
      the two numbers there, and if there is none, exactly then, the answer names the two. */
  lemma RouteByBytes<R>(history: seq<ProteusService<R>>, interaction: Interaction, metadata: Metadata,
                        namespaceId: int32, serviceId: int32)
    requires ProteusMetadata.NumberAt(metadata, 2, Unsigned32(namespaceId))
    requires ProteusMetadata.NumberAt(metadata, 6, Unsigned32(serviceId))
    ensures Route(history, interaction, metadata) == ServiceNotFound(namespaceId, serviceId)
       <==> forall i :: 0 <= i < |history| ==> !IsUnder(history[i], namespaceId, serviceId)
    ensures forall i :: 0 <= i < |history| && IsUnder(history[i], namespaceId, serviceId)
              && (forall j :: i < j < |history| ==> !IsUnder(history[j], namespaceId, serviceId))
              ==> Route(history, interaction, metadata) == Handled(history[i].handler(interaction, metadata))
  {
    ProteusMetadata.FieldsRead(metadata);
    assert ProteusMetadata.NamespaceId(metadata).value == namespaceId;
    assert ProteusMetadata.ServiceId(metadata).value == serviceId;
    var pair := (namespaceId, serviceId);
    FoundIff(history, pair);
    if LastUnder(history, pair).Some? {
      var last := FoundIsLast(history, pair);
      assert IsUnder(history[last], namespaceId, serviceId);
    }
  }

  predicate IsUnder<R>(service: ProteusService<R>, namespaceId: int32, serviceId: int32) {
    service.namespaceId == namespaceId && service.serviceId == serviceId
  }

  // ---- the socket ------------------------------------------------------------------------

  class RequestHandlingRSocket<R> {
    const registeredServices: BiInt2ObjectMap<ProteusService<R>>
    ghost var history: seq<ProteusService<R>>

    /** The map holds the registrations in force. */
    ghost predicate Recorded()
      reads this, registeredServices, registeredServices.Repr
    {
      && registeredServices.Working()
      && registeredServices.Tuned()
      && this !in registeredServices.Repr
      && registeredServices.contents == InForce(history)
      && registeredServices.size <= |history|
    }

    /** Moreover lookups end. */
    ghost predicate Valid()
      reads this, registeredServices, registeredServices.Repr
    {
      Recorded() && registeredServices.Valid()
    }

    constructor ()
      ensures Valid() && fresh(registeredServices) && fresh(registeredServices.Repr)
      ensures history == [] && registeredServices.loadFactor == DEFAULT_LOAD_FACTOR
    {
      registeredServices := new BiInt2ObjectMap<ProteusService<R>>(MIN_CAPACITY, DEFAULT_LOAD_FACTOR);
      history := [];
    }

    /** Register the given services in order. It can only fail by outgrowing the largest map. */
    static method Create(services: seq<ProteusService<R>>) returns (r: Result<RequestHandlingRSocket<R>, MapError>)
      ensures r.Success? ==>
                && fresh(r.value) && fresh(r.value.registeredServices)
                && fresh(r.value.registeredServices.Repr)
      ensures r.Success? ==> r.value.Valid() && r.value.history == services
      ensures r.Failure? ==> |services| > Threshold(Sizing.MAX_CAPACITY, DEFAULT_LOAD_FACTOR)
    {
      hide Represents, Table, Threshold;
      var socket := new RequestHandlingRSocket<R>();
      for i := 0 to |services|
        invariant fresh(socket) && fresh(socket.registeredServices) && fresh(socket.registeredServices.Repr)
        invariant socket.Valid() && socket.history == services[..i]
        invariant socket.registeredServices.loadFactor == DEFAULT_LOAD_FACTOR
      {
        assert services[..i + 1] == services[..i] + [services[i]];
        var added := socket.AddService(services[i]);
        if added.Failure? {
          return Failure(added.error);
        }
      }
      assert services[..|services|] == services;
      return Success(socket);
    }

    /** Register one more service. When the largest map refuses to grow the service is registered
        all the same, though it may have taken the last free slot. */
    method AddService(service: ProteusService<R>) returns (r: Result<(), MapError>)
      requires Valid()
      modifies this, registeredServices.Repr
      ensures Recorded() && fresh(registeredServices.Repr - old(registeredServices.Repr))
      ensures history == old(history) + [service]
      ensures r.Success? || registeredServices.size < registeredServices.values.Length ==> Valid()
      ensures r.Failure? ==> |history| > Threshold(Sizing.MAX_CAPACITY, registeredServices.loadFactor)
    {
      hide Represents, Table, Threshold;
      var stored := registeredServices.Put(service.namespaceId, service.serviceId, service);
      assert (history + [service])[..|history|] == history;
      history := history + [service];
      return if stored.Success? then Success(()) else Failure(stored.error);
    }

    method GetService(namespaceId: int32, serviceId: int32) returns (service: Option<ProteusService<R>>)
      requires Valid()
      ensures service == LastUnder(history, (namespaceId, serviceId))
    {
      InForceIsLast(history, (namespaceId, serviceId));
      service := registeredServices.Get(namespaceId, serviceId);
    }

    /** The step shared by the four request handlers: read the ids, look the service up, and let
        it handle the payload in the same interaction. */
    method Handle(interaction: Interaction, metadata: Metadata) returns (r: Response<R>)
      requires Valid()
      ensures r == Route(history, interaction, metadata)
    {
      var namespaceId := ProteusMetadata.NamespaceId(metadata);
      if namespaceId.Failure? {
        return Refusal(interaction, namespaceId.error);
      }
      var serviceId := ProteusMetadata.ServiceId(metadata);
      if serviceId.Failure? {
        return Refusal(interaction, serviceId.error);
      }
      var service := GetService(namespaceId.value, serviceId.value);
      if service == None {
        return ServiceNotFound(namespaceId.value, serviceId.value);
      }
      return Handled(service.value.handler(interaction, metadata));
    }
  }
}
