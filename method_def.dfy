/**
 * RpcMethodDef (src/Stl.Rpc/Configuration/RpcMethodDef.cs): what an RPC
 * method's contract looks like on the wire.  The constructor derives the
 * argument-list type, the remote parameter types (the parameters without
 * the CancellationToken, which never travels), the polymorphism and no-wait
 * flags, and validity; ToString renders the signature once and caches it.
 *
 * Reflection is reduced to data: a CLR type is a ClrType value, the base
 * MethodDef's results (parameter types, CancellationTokenIndex,
 * IsAsyncMethod, UnwrappedReturnType, IsValid) are the MethodShape input,
 * and the name Hub.MethodNameBuilder produces is a parameter.
 */
module RpcConfiguration {
  import opened Wrappers

  /** A CLR type, as far as RpcMethodDef tells types apart. */
  datatype ClrType =
    | ObjectType             // typeof(object)
    | CancellationTokenType
    | RpcNoWaitType          // typeof(RpcNoWait)
    | OtherType(name: string)

  /** Type.GetName(), for the types above. */
  function TypeName(t: ClrType): string {
    match t
    case ObjectType => "object"
    case CancellationTokenType => "CancellationToken"
    case RpcNoWaitType => "RpcNoWait"
    case OtherType(n) => n
  }

  /**
   * An ArgumentList type: ArgumentList0 for no arguments, otherwise
   * ArgumentList.Types[n] closed over the n argument types.
   */
  datatype ArgumentListType = ArgumentList0 | ArgumentListOfTypes(typeArguments: seq<ClrType>)

  function Arity(a: ArgumentListType): nat {
    match a
    case ArgumentList0 => 0
    case ArgumentListOfTypes(ts) => |ts|
  }

  /** The argument-list type for the given parameter types (lines 26-28 and 38-40). */
  function ArgumentListOf(types: seq<ClrType>): (r: ArgumentListType)
    ensures Arity(r) == |types|
    ensures r.ArgumentListOfTypes? ==> r.typeArguments == types
  {
    if |types| == 0 then ArgumentList0 else ArgumentListOfTypes(types)
  }

  /** What the base MethodDef computed by reflection over the MethodInfo. */
  datatype MethodShape = MethodShape(
    parameterTypes: seq<ClrType>,
    cancellationTokenIndex: int,
    isAsyncMethod: bool,
    unwrappedReturnType: ClrType,
    isValid: bool)

  datatype ServiceDef = ServiceDef(isSystem: bool, isBackend: bool)

  /** ToDelimitedString with the default ", " delimiter. */
  function Join(names: seq<string>): string
    decreases |names|
  {
    if names == [] then ""
    else if |names| == 1 then names[0]
    else names[0] + ", " + Join(names[1..])
  }

  function TypeNames(types: seq<ClrType>): (r: seq<string>)
    ensures |r| == |types|
    ensures forall i :: 0 <= i < |types| ==> r[i] == TypeName(types[i])
  {
    seq(|types|, i requires 0 <= i < |types| => TypeName(types[i]))
  }

  /** The start of the text of ToString: the quoted name. */
  function QuotedName(name: string): string {
    "'" + name + "': ("
  }

  /** The text of ToString (line 64) before the validity marker: `'Name': (argument types) -> return type`. */
  function SignatureHead(name: string, remoteParameterTypes: seq<ClrType>, returnType: ClrType): string {
    QuotedName(name) + (Join(TypeNames(remoteParameterTypes)) + ") -> " + TypeName(returnType))
  }

  /** The text of ToString (line 64): the head, marked when the method is invalid. */
  function Signature(name: string, remoteParameterTypes: seq<ClrType>, returnType: ClrType, isValid: bool): string {
    SignatureHead(name, remoteParameterTypes, returnType) + (if isValid then "" else " - invalid")
  }

  /**
   * An invalid method's signature is the valid rendering followed by
   * " - invalid", and both start with the quoted name.
   */
  lemma SignatureMarksInvalid(name: string, remote: seq<ClrType>, returnType: ClrType)
    ensures Signature(name, remote, returnType, false) == Signature(name, remote, returnType, true) + " - invalid"
    ensures QuotedName(name) <= Signature(name, remote, returnType, true)
    ensures QuotedName(name) <= Signature(name, remote, returnType, false)
  {
    var head := SignatureHead(name, remote, returnType);
    assert head + "" == head;
    assert QuotedName(name) <= head;
  }

  /**
   * The loop of lines 30-36: copies the parameter types into a new array
   * one shorter, leaving out the CancellationToken at index k.
   */
  method RemoveCancellationSlot(parameterTypes: seq<ClrType>, k: nat) returns (remote: array<ClrType>)
    requires k < |parameterTypes|
    ensures fresh(remote)
    ensures remote[..] == parameterTypes[..k] + parameterTypes[k + 1..]
  {
    remote := new ClrType[|parameterTypes| - 1];
    for i := 0 to |parameterTypes|
      invariant forall j :: 0 <= j < i && j < k ==> remote[j] == parameterTypes[j]
      invariant forall j :: k < j < i ==> remote[j - 1] == parameterTypes[j]
    {
      if i < k {
        remote[i] := parameterTypes[i];
      } else if i > k {
        remote[i - 1] := parameterTypes[i];
      }
    }
    assert remote[..] == parameterTypes[..k] + parameterTypes[k + 1..];
  }

  /** Whether some type is System.Object (line 46). */
  function HasObjectTyped(types: seq<ClrType>): (r: bool)
    ensures r <==> exists i :: 0 <= i < |types| && types[i] == ObjectType
  {
    if types == [] then false else types[0] == ObjectType || HasObjectTyped(types[1..])
  }

  class RpcMethodDef {
    const service: ServiceDef
    const shape: MethodShape
    const name: string
    const argumentListType: ArgumentListType
    const remoteParameterTypes: seq<ClrType>
    const remoteArgumentListType: ArgumentListType
    const hasObjectTypedArguments: bool
    const allowArgumentPolymorphism: bool
    const allowResultPolymorphism: bool
    const noWait: bool
    const isValid: bool
    /** _toStringCached. */
    var toStringCached: Option<string>

    /** The cache, once filled, holds the signature. */
    ghost predicate Valid()
      reads this
    {
      toStringCached.Some? ==> toStringCached.value == Signature(name, remoteParameterTypes, shape.unwrappedReturnType, isValid)
    }

    /**
     * The constructor (lines 22-55).  The remote parameters are the
     * parameters without the CancellationToken slot, in order; without a
     * CancellationToken they are the parameters themselves.  A method that
     * is not async is built, but invalid.
     */
    constructor(service: ServiceDef, shape: MethodShape, name: string)
      requires shape.cancellationTokenIndex < |shape.parameterTypes|
      ensures Valid() && toStringCached == None
      ensures this.service == service && this.shape == shape && this.name == name
      ensures argumentListType == ArgumentListOf(shape.parameterTypes)
      ensures var k := shape.cancellationTokenIndex;
        && (k >= 0 ==> remoteParameterTypes == shape.parameterTypes[..k] + shape.parameterTypes[k + 1..])
        && (k < 0 ==> remoteParameterTypes == shape.parameterTypes && remoteArgumentListType == argumentListType)
      ensures remoteArgumentListType == ArgumentListOf(remoteParameterTypes)
      ensures hasObjectTypedArguments <==> exists i :: 0 <= i < |remoteParameterTypes| && remoteParameterTypes[i] == ObjectType
      ensures noWait <==> shape.unwrappedReturnType == RpcNoWaitType
      ensures allowArgumentPolymorphism == allowResultPolymorphism == (service.isSystem || service.isBackend)
      ensures isValid == (shape.isValid && shape.isAsyncMethod)
    {
      var parameterTypes := shape.parameterTypes;
      var argumentListType := if |parameterTypes| == 0 then ArgumentList0 else ArgumentListOfTypes(parameterTypes);
      this.argumentListType := argumentListType;
      var k := shape.cancellationTokenIndex;
      var remoteTypes: seq<ClrType>;
      if k >= 0 {
        var remote := RemoveCancellationSlot(parameterTypes, k);
        remoteTypes := remote[..];
        remoteArgumentListType := if remote.Length == 0 then ArgumentList0 else ArgumentListOfTypes(remote[..]);
      } else {
        remoteTypes := parameterTypes;
        remoteArgumentListType := argumentListType;
      }
      remoteParameterTypes := remoteTypes;
      hasObjectTypedArguments := HasObjectTyped(remoteTypes);
      noWait := shape.unwrappedReturnType == RpcNoWaitType;
      this.service := service;
      this.shape := shape;
      this.name := name;
      var polymorphic := service.isSystem || service.isBackend;
      allowResultPolymorphism := polymorphic;
      allowArgumentPolymorphism := polymorphic;
      isValid := if !shape.isAsyncMethod then false else shape.isValid;
      toStringCached := None;
    }

    /**
     * ToString (lines 57-65): the signature, computed on the first call and
     * returned from the cache afterwards.
     */
    method ToString() returns (s: string)
      requires Valid()
      modifies this
      ensures Valid()
      ensures s == Signature(name, remoteParameterTypes, shape.unwrappedReturnType, isValid)
      ensures toStringCached == Some(s)
    {
      if toStringCached.Some? {
        return toStringCached.value;
      }
      var arguments := Join(TypeNames(remoteParameterTypes));
      var returnType := TypeName(shape.unwrappedReturnType);
      s := "'" + name + "': (" + (arguments + ") -> " + returnType) + (if isValid then "" else " - invalid");
      toStringCached := Some(s);
    }
  }
}
