/**
 * RpcSystemCallSender (src/Stl.Rpc/Infrastructure/RpcSystemCallSender.cs):
 * sends the RPC system calls (Ok, Error, Cancel, GetStream, StreamStart,
 * StreamItem, StreamEnd), each as one outgoing call built from a method
 * definition of the system-calls service.  The definitions are looked up by
 * name with `Single` and cached after the first successful lookup; Ok rolls
 * the caller's header list back when preparing the call throws, and sends
 * Error instead.
 *
 * Preparing and sending a call (RpcOutboundContext.PrepareCall, SendNoWait)
 * is recorded as the OutboundCall value the sender hands over; whether
 * PrepareCall throws in Ok is the explicit input PrepareOutcome.
 */
module SystemCalls {
  import opened Wrappers

  /** The methods of IRpcSystemCalls the sender has a cached definition for. */
  datatype SystemMethod =
    | OkMethod
    | ErrorMethod
    | CancelMethod
    | NotFoundMethod
    | GetStreamMethod
    | StreamStartMethod
    | StreamItemMethod
    | StreamEndMethod

  /** `nameof(IRpcSystemCalls.X)`. */
  function NameOf(m: SystemMethod): string {
    match m
    case OkMethod => "Ok"
    case ErrorMethod => "Error"
    case CancelMethod => "Cancel"
    case NotFoundMethod => "NotFound"
    case GetStreamMethod => "GetStream"
    case StreamStartMethod => "StreamStart"
    case StreamItemMethod => "StreamItem"
    case StreamEndMethod => "StreamEnd"
  }

  /** A method definition of the system-calls service, known by its Method.Name and an identity. */
  datatype MethodRef = MethodRef(name: string, id: nat)

  /** Exceptions: InvalidOperation is what `Single` throws; Thrown stands for any other. */
  datatype Exception = InvalidOperation | Thrown(id: nat)

  type PeerId = nat
  datatype Header = Header(name: string, value: string)

  /** RpcCallTypes: only GetStream asks for a stream call. */
  datatype CallType = Regular | Stream

  /** The argument list of a system call. */
  datatype Args<V> =
    | NoArgs                                 // ArgumentList.Empty
    | ResultArg(result: V)                   // ArgumentList.New(result)
    | ErrorInfo(error: Option<Exception>)    // ArgumentList.New(error.ToExceptionInfo())
    | ItemType(typeRef: string)              // ArgumentList.New(itemTypeRef)

  /** A prepared call as SendNoWait hands it to the peer. */
  datatype OutboundCall<V> = OutboundCall(
    peer: PeerId,
    relatedCallId: int,
    callType: CallType,
    target: MethodRef,
    args: Args<V>,
    headers: Option<seq<Header>>,
    allowPolymorphism: bool)

  /** Whether PrepareCall in Ok succeeds, or adds headers to the caller's list and then throws. */
  datatype PrepareOutcome = Prepared | PrepareFails(added: seq<Header>, error: Exception)

  // ---------------------------------------------------------------------
  // Looking a definition up with Single (lines 23-38)

  /** The definitions named `name`, in order. */
  function Named(defs: seq<MethodRef>, name: string): (r: seq<MethodRef>)
    ensures forall d :: d in r ==> d in defs && d.name == name
    ensures forall i :: 0 <= i < |defs| && defs[i].name == name ==> defs[i] in r
    ensures |r| <= |defs|
  {
    if defs == [] then []
    else (if defs[0].name == name then [defs[0]] else []) + Named(defs[1..], name)
  }

  /** Exactly one position of defs holds a definition named `name`. */
  ghost predicate ExactlyOne(defs: seq<MethodRef>, name: string) {
    exists i :: 0 <= i < |defs| && defs[i].name == name
      && forall j :: 0 <= j < |defs| && defs[j].name == name ==> j == i
  }

  lemma NamedEmpty(defs: seq<MethodRef>, name: string)
    ensures Named(defs, name) == [] <==> forall i :: 0 <= i < |defs| ==> defs[i].name != name
  {
    if Named(defs, name) != [] {
      assert Named(defs, name)[0] in Named(defs, name);
    }
  }

  lemma ExactlyOneSkip(d: MethodRef, rest: seq<MethodRef>, name: string)
    requires d.name != name
    ensures ExactlyOne([d] + rest, name) <==> ExactlyOne(rest, name)
  {
    var defs := [d] + rest;
    if ExactlyOne(defs, name) {
      var i :| 0 <= i < |defs| && defs[i].name == name
        && forall j :: 0 <= j < |defs| && defs[j].name == name ==> j == i;
      ExactlyOneShiftDown(defs, rest, name, i);
    }
    if ExactlyOne(rest, name) {
      var i :| 0 <= i < |rest| && rest[i].name == name
        && forall j :: 0 <= j < |rest| && rest[j].name == name ==> j == i;
      ExactlyOneShiftUp(defs, rest, name, i);
    }
  }

  lemma ExactlyOneShiftDown(defs: seq<MethodRef>, rest: seq<MethodRef>, name: string, i: int)
    requires defs != [] && rest == defs[1..] && defs[0].name != name
    requires 0 <= i < |defs| && defs[i].name == name
    requires forall j :: 0 <= j < |defs| && defs[j].name == name ==> j == i
    ensures ExactlyOne(rest, name)
  {
    assert rest[i - 1].name == name;
    forall j | 0 <= j < |rest| && rest[j].name == name ensures j == i - 1 {
      assert defs[j + 1] == rest[j];
    }
  }

  lemma ExactlyOneShiftUp(defs: seq<MethodRef>, rest: seq<MethodRef>, name: string, i: int)
    requires defs != [] && rest == defs[1..] && defs[0].name != name
    requires 0 <= i < |rest| && rest[i].name == name
    requires forall j :: 0 <= j < |rest| && rest[j].name == name ==> j == i
    ensures ExactlyOne(defs, name)
  {
    assert defs[i + 1] == rest[i];
    forall j | 0 <= j < |defs| && defs[j].name == name ensures j == i + 1 {
      assert rest[j - 1] == defs[j];
    }
  }

  lemma ExactlyOneHead(d: MethodRef, rest: seq<MethodRef>, name: string)
    requires d.name == name
    ensures ExactlyOne([d] + rest, name) <==> forall j :: 0 <= j < |rest| ==> rest[j].name != name
  {
    var defs := [d] + rest;
    if forall j :: 0 <= j < |rest| ==> rest[j].name != name {
      assert defs[0].name == name;
    }
    if ExactlyOne(defs, name) {
      var i :| 0 <= i < |defs| && defs[i].name == name
        && forall j :: 0 <= j < |defs| && defs[j].name == name ==> j == i;
      assert defs[0].name == name;
      forall j | 0 <= j < |rest| ensures rest[j].name != name {
        assert defs[j + 1] == rest[j];
      }
    }
  }

  lemma {:induction false} NamedExactlyOne(defs: seq<MethodRef>, name: string)
    ensures |Named(defs, name)| == 1 <==> ExactlyOne(defs, name)
    decreases |defs|
  {
    if defs != [] {
      var rest := defs[1..];
      assert defs == [defs[0]] + rest;
      if defs[0].name == name {
        NamedEmpty(rest, name);
        ExactlyOneHead(defs[0], rest, name);
      } else {
        NamedExactlyOne(rest, name);
        ExactlyOneSkip(defs[0], rest, name);
      }
    }
  }

  /**
   * `Methods.Single(m => m.Method.Name == name)`: the one definition with
   * that name, or InvalidOperation when there is none or more than one.
   */
  function Lookup(defs: seq<MethodRef>, name: string): (r: Result<MethodRef, Exception>)
    ensures r.Success? <==> ExactlyOne(defs, name)
    ensures r.Success? ==> r.value in defs && r.value.name == name
    ensures r.Failure? ==> r.error == InvalidOperation
  {
    NamedExactlyOne(defs, name);
    var named := Named(defs, name);
    if |named| == 1 then
      assert named[0] in named;
      Success(named[0])
    else Failure(InvalidOperation)
  }

  // ---------------------------------------------------------------------
  // The caller's header list

  /** A List<RpcHeader> the caller owns and the context may add to. */
  class HeaderList {
    var items: seq<Header>

    constructor(items: seq<Header>)
      ensures this.items == items
    {
      this.items := items;
    }

    method AddRange(hs: seq<Header>)
      modifies this
      ensures items == old(items) + hs
    {
      items := items + hs;
    }

    method RemoveAt(i: nat)
      requires i < |items|
      modifies this
      ensures items == old(items)[..i] + old(items)[i + 1..]
    {
      items := items[..i] + items[i + 1..];
    }
  }

  // ---------------------------------------------------------------------
  // What a send gives

  /**
   * `r` is what sending system method `m` gives: the call, with the given
   * fields, to the definition Single finds, or InvalidOperation when Single
   * fails.
   */
  ghost predicate Sends<V>(defs: seq<MethodRef>, m: SystemMethod, r: Result<OutboundCall<V>, Exception>,
                           peer: PeerId, callId: int, callType: CallType, args: Args<V>,
                           headers: Option<seq<Header>>, allowPolymorphism: bool)
  {
    && (r.Success? <==> ExactlyOne(defs, NameOf(m)))
    && (r.Failure? ==> r.error == InvalidOperation)
    && (r.Success? ==>
          r.value == OutboundCall(peer, callId, callType, Lookup(defs, NameOf(m)).value, args, headers, allowPolymorphism))
  }

  /**
   * `r` is what Ok gives when the caller's headers were `entry` on the way
   * in: the result, with the caller's polymorphism flag, when Single finds
   * the Ok definition and PrepareCall succeeds; otherwise Error with the
   * caught exception, the headers as they were on entry, and an empty list
   * sent as null.
   */
  ghost predicate OkSends<V>(defs: seq<MethodRef>, r: Result<OutboundCall<V>, Exception>, peer: PeerId, callId: int,
                             result: V, allowPolymorphism: bool, entry: Option<seq<Header>>, prepare: PrepareOutcome)
  {
    var okDef := Lookup(defs, NameOf(OkMethod));
    if okDef.Success? && prepare.Prepared? then
      Sends(defs, OkMethod, r, peer, callId, Regular, ResultArg(result), entry, allowPolymorphism)
    else
      var caught := if okDef.Failure? then okDef.error else prepare.error;
      Sends(defs, ErrorMethod, r, peer, callId, Regular, ErrorInfo(Some(caught)),
            if entry == Some([]) then None else entry, false)
  }

  // ---------------------------------------------------------------------
  // The sender

  class SystemCallSender<V> {
    /** SystemCallsServiceDef.Methods. */
    const methods: seq<MethodRef>
    /** The `??=` fields: a method is present once its lookup has succeeded. */
    var cache: map<SystemMethod, MethodRef>

    /** Every cached definition is the one Single finds. */
    ghost predicate Valid()
      reads this
    {
      forall m :: m in cache ==> Lookup(methods, NameOf(m)) == Success(cache[m])
    }

    constructor(methods: seq<MethodRef>)
      ensures Valid() && this.methods == methods && cache == map[]
    {
      this.methods := methods;
      cache := map[];
    }

    /**
     * The XxxMethodDef properties (lines 23-38): the cached definition if
     * there is one, else the result of Single, cached when it succeeds.  The
     * answer is always what Single finds, cached or not.
     */
    method MethodDefOf(m: SystemMethod) returns (r: Result<MethodRef, Exception>)
      requires Valid()
      modifies this
      ensures Valid()
      ensures r == Lookup(methods, NameOf(m))
      ensures cache == if m in old(cache) || r.Failure? then old(cache) else old(cache)[m := r.value]
    {
      if m in cache {
        return Success(cache[m]);
      }
      r := Lookup(methods, NameOf(m));
      if r.Success? {
        cache := cache[m := r.value];
      }
    }

    /**
     * PrepareCall followed by SendNoWait for a system method: the call goes
     * to the definition Single finds; a failed lookup throws.
     */
    method Dispatch(m: SystemMethod, peer: PeerId, callId: int, callType: CallType, args: Args<V>,
                    headers: Option<seq<Header>>, allowPolymorphism: bool)
      returns (r: Result<OutboundCall<V>, Exception>)
      requires Valid()
      modifies this
      ensures Valid() && old(cache).Keys <= cache.Keys
      ensures Sends(methods, m, r, peer, callId, callType, args, headers, allowPolymorphism)
    {
      var d := MethodDefOf(m);
      if d.Failure? {
        return Failure(d.error);
      }
      return Success(OutboundCall(peer, callId, callType, d.value, args, headers, allowPolymorphism));
    }

    /**
     * Error (lines 71-79): the exception's info to the same peer and call,
     * with no polymorphism.
     */
    method Error(peer: PeerId, callId: int, error: Exception, headers: Option<seq<Header>>)
      returns (r: Result<OutboundCall<V>, Exception>)
      requires Valid()
      modifies this
      ensures Valid() && old(cache).Keys <= cache.Keys
      ensures Sends(methods, ErrorMethod, r, peer, callId, Regular, ErrorInfo(Some(error)), headers, false)
    {
      r := Dispatch(ErrorMethod, peer, callId, Regular, ErrorInfo(Some(error)), headers, false);
    }

    /**
     * Ok (lines 47-69): the result to the same peer and call with the
     * caller's polymorphism flag.  When the Ok definition cannot be found or
     * PrepareCall throws, the headers added since entry are removed from
     * the end of the list, an emptied list is replaced by null, and Error is
     * sent with the caught exception instead.
     */
    method Ok(peer: PeerId, callId: int, result: V, allowPolymorphism: bool, headers: HeaderList?, prepare: PrepareOutcome)
      returns (r: Result<OutboundCall<V>, Exception>)
      requires Valid()
      modifies this, headers
      ensures Valid() && old(cache).Keys <= cache.Keys
      ensures headers != null ==> headers.items == old(headers.items)
      ensures OkSends(methods, r, peer, callId, result, allowPolymorphism,
                      if headers == null then None else Some(old(headers.items)), prepare)
    {
      var headerCount := if headers == null then 0 else |headers.items|;
      var entry := if headers == null then None else Some(headers.items);
      var okDef := MethodDefOf(OkMethod);
      var caught: Exception;
      if okDef.Failure? {
        caught := okDef.error;
      } else if prepare.PrepareFails? {
        if headers != null {
          headers.AddRange(prepare.added);
        }
        caught := prepare.error;
      } else {
        return Success(OutboundCall(peer, callId, Regular, okDef.value, ResultArg(result), entry, allowPolymorphism));
      }
      var rolledBack: Option<seq<Header>> := None;
      if headers != null {
        RollBack(headers, headerCount);
        if |headers.items| > 0 {
          rolledBack := Some(headers.items);
        }
      }
      r := Error(peer, callId, caught, rolledBack);
    }

    /**
     * The rollback loop of lines 61-63: removes headers from the end of the
     * list until it is back to `headerCount`; the headers before that
     * position are untouched.
     */
    static method RollBack(headers: HeaderList, headerCount: nat)
      requires headerCount <= |headers.items|
      modifies headers
      ensures headers.items == old(headers.items)[..headerCount]
    {
      while |headers.items| > headerCount
        invariant headerCount <= |headers.items| && headers.items[..headerCount] == old(headers.items)[..headerCount]
        decreases |headers.items|
      {
        headers.RemoveAt(|headers.items| - 1);
      }
      assert headers.items == headers.items[..headerCount];
    }

    /**
     * Complete (lines 40-45): Ok with the value when the result holds one,
     * Error with the held exception otherwise.
     */
    method Complete(peer: PeerId, callId: int, result: Result<V, Exception>, allowPolymorphism: bool,
                    headers: HeaderList?, prepare: PrepareOutcome)
      returns (r: Result<OutboundCall<V>, Exception>)
      requires Valid()
      modifies this, headers
      ensures Valid() && old(cache).Keys <= cache.Keys
      ensures headers != null ==> headers.items == old(headers.items)
      ensures var entry := if headers == null then None else Some(old(headers.items));
        && (result.Success? ==> OkSends(methods, r, peer, callId, result.value, allowPolymorphism, entry, prepare))
        && (result.Failure? ==> Sends(methods, ErrorMethod, r, peer, callId, Regular, ErrorInfo(Some(result.error)), entry, false))
    {
      if result.Success? {
        r := Ok(peer, callId, result.value, allowPolymorphism, headers, prepare);
      } else {
        var entry := if headers == null then None else Some(headers.items);
        r := Error(peer, callId, result.error, entry);
      }
    }

    /** Cancel (lines 81-89): an empty argument list, no polymorphism. */
    method Cancel(peer: PeerId, callId: int, headers: Option<seq<Header>>)
      returns (r: Result<OutboundCall<V>, Exception>)
      requires Valid()
      modifies this
      ensures Valid() && old(cache).Keys <= cache.Keys
      ensures Sends(methods, CancelMethod, r, peer, callId, Regular, NoArgs, headers, false)
    {
      r := Dispatch(CancelMethod, peer, callId, Regular, NoArgs, headers, false);
    }

    /** GetStream (lines 91-100): the only system call of the Stream call type. */
    method GetStream(peer: PeerId, callId: int, headers: Option<seq<Header>>)
      returns (r: Result<OutboundCall<V>, Exception>)
      requires Valid()
      modifies this
      ensures Valid() && old(cache).Keys <= cache.Keys
      ensures Sends(methods, GetStreamMethod, r, peer, callId, Stream, NoArgs, headers, false)
    {
      r := Dispatch(GetStreamMethod, peer, callId, Stream, NoArgs, headers, false);
    }

    /** StreamStart (lines 102-110): the item type, no polymorphism. */
    method StreamStart(peer: PeerId, callId: int, itemTypeRef: string, headers: Option<seq<Header>>)
      returns (r: Result<OutboundCall<V>, Exception>)
      requires Valid()
      modifies this
      ensures Valid() && old(cache).Keys <= cache.Keys
      ensures Sends(methods, StreamStartMethod, r, peer, callId, Regular, ItemType(itemTypeRef), headers, false)
    {
      r := Dispatch(StreamStartMethod, peer, callId, Regular, ItemType(itemTypeRef), headers, false);
    }

    /** StreamItem (lines 112-120): the item, always with polymorphism allowed. */
    method StreamItem(peer: PeerId, callId: int, item: V, headers: Option<seq<Header>>)
      returns (r: Result<OutboundCall<V>, Exception>)
      requires Valid()
      modifies this
      ensures Valid() && old(cache).Keys <= cache.Keys
      ensures Sends(methods, StreamItemMethod, r, peer, callId, Regular, ResultArg(item), headers, true)
    {
      r := Dispatch(StreamItemMethod, peer, callId, Regular, ResultArg(item), headers, true);
    }

    /** StreamEnd (lines 122-131): the info of the error, which may be null, no polymorphism. */
    method StreamEnd(peer: PeerId, callId: int, error: Option<Exception>, headers: Option<seq<Header>>)
      returns (r: Result<OutboundCall<V>, Exception>)
      requires Valid()
      modifies this
      ensures Valid() && old(cache).Keys <= cache.Keys
      ensures Sends(methods, StreamEndMethod, r, peer, callId, Regular, ErrorInfo(error), headers, false)
    {
      r := Dispatch(StreamEndMethod, peer, callId, Regular, ErrorInfo(error), headers, false);
    }
  }
}
