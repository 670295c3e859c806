/**
 * The dispatch table (`HandlePbBeanManager`): three maps keyed by protocol
 * id, from the id to the message parser, to the handler class and to the
 * handler method.  The class map keeps the first registration of an id, the
 * two method maps the last one.
 */
module Dispatch {
  import opened JavaTypes

  /**
   * A Java `HashMap<Integer, V>`.  A key may be present with a null value,
   * which `putIfAbsent` treats like an absent key.
   */
  type JavaMap<V> = map<int32, Option<V>>

  /** `map.getOrDefault(key, null)`. */
  function GetOrNull<V>(m: JavaMap<V>, key: int32): (r: Option<V>)
    ensures key !in m ==> r == None
    ensures key in m ==> r == m[key]
  {
    if key in m then m[key] else None
  }

  /** `map.put(key, value)`: the value under `key` is replaced; no other key changes. */
  function Put<V>(m: JavaMap<V>, key: int32, value: Option<V>): (r: JavaMap<V>)
    ensures GetOrNull(r, key) == value
    ensures forall k :: k != key ==> GetOrNull(r, k) == GetOrNull(m, k)
    ensures r.Keys == m.Keys + {key}
  {
    m[key := value]
  }

  /**
   * `map.putIfAbsent(key, value)`: the value is stored only when `key` is
   * absent or maps to null; no other key changes.
   */
  function PutIfAbsent<V>(m: JavaMap<V>, key: int32, value: Option<V>): (r: JavaMap<V>)
    ensures GetOrNull(r, key) == if GetOrNull(m, key).Some? then GetOrNull(m, key) else value
    ensures forall k :: k != key ==> GetOrNull(r, k) == GetOrNull(m, k)
    ensures r.Keys == m.Keys + {key}
  {
    if key in m && m[key].Some? then m else m[key := value]
  }

  /** One setter call: a protocol id and the (possibly null) value registered for it. */
  datatype Registration<V> = Registration(key: int32, value: Option<V>)

  /** The map after a series of `put` calls, in order. */
  function PutAll<V>(m: JavaMap<V>, regs: seq<Registration<V>>): JavaMap<V>
    decreases |regs|
  {
    if regs == [] then m else PutAll(Put(m, regs[0].key, regs[0].value), regs[1..])
  }

  /** The map after a series of `putIfAbsent` calls, in order. */
  function PutAllIfAbsent<V>(m: JavaMap<V>, regs: seq<Registration<V>>): JavaMap<V>
    decreases |regs|
  {
    if regs == [] then m else PutAllIfAbsent(PutIfAbsent(m, regs[0].key, regs[0].value), regs[1..])
  }

  predicate Registered<V>(regs: seq<Registration<V>>, key: int32) {
    exists i :: 0 <= i < |regs| && regs[i].key == key
  }

  /** The value of the most recent registration of `key`, or `initial` when there is none. */
  function LastRegistered<V>(regs: seq<Registration<V>>, key: int32, initial: Option<V>): (r: Option<V>)
    ensures !Registered(regs, key) ==> r == initial
  {
    if regs == [] then initial
    else if regs[|regs| - 1].key == key then regs[|regs| - 1].value
    else LastRegistered(regs[..|regs| - 1], key, initial)
  }

  /** The value of the earliest non-null registration of `key`, or null. */
  function FirstNonNull<V>(regs: seq<Registration<V>>, key: int32): (r: Option<V>)
    ensures !Registered(regs, key) ==> r == None
  {
    if regs == [] then None
    else if regs[0].key == key && regs[0].value.Some? then regs[0].value
    else FirstNonNull(regs[1..], key)
  }

  lemma {:induction false} LastRegisteredCons<V>(reg: Registration<V>, regs: seq<Registration<V>>, key: int32, initial: Option<V>)
    ensures LastRegistered([reg] + regs, key, initial)
         == LastRegistered(regs, key, if reg.key == key then reg.value else initial)
    decreases |regs|
  {
    if regs != [] {
      var all := [reg] + regs;
      assert all[..|all| - 1] == [reg] + regs[..|regs| - 1];
      LastRegisteredCons(reg, regs[..|regs| - 1], key, initial);
    } else {
      assert [reg] + regs == [reg];
      assert ([reg] + regs)[..0] == [];
    }
  }

  /** After a series of `put` calls a key maps to its most recent registration. */
  lemma {:induction false} PutAllKeepsLast<V>(m: JavaMap<V>, regs: seq<Registration<V>>, key: int32)
    ensures GetOrNull(PutAll(m, regs), key) == LastRegistered(regs, key, GetOrNull(m, key))
    decreases |regs|
  {
    if regs != [] {
      var m' := Put(m, regs[0].key, regs[0].value);
      PutAllKeepsLast(m', regs[1..], key);
      assert regs == [regs[0]] + regs[1..];
      LastRegisteredCons(regs[0], regs[1..], key, GetOrNull(m, key));
    }
  }

  /**
   * After a series of `putIfAbsent` calls a key keeps a non-null value it
   * already had, and otherwise maps to its first non-null registration.
   */
  lemma {:induction false} PutAllIfAbsentKeepsFirst<V>(m: JavaMap<V>, regs: seq<Registration<V>>, key: int32)
    ensures GetOrNull(PutAllIfAbsent(m, regs), key)
         == if GetOrNull(m, key).Some? then GetOrNull(m, key) else FirstNonNull(regs, key)
    decreases |regs|
  {
    if regs != [] {
      PutAllIfAbsentKeepsFirst(PutIfAbsent(m, regs[0].key, regs[0].value), regs[1..], key);
    }
  }

  /** A later `putIfAbsent` of a key that already has a handler class changes nothing. */
  lemma PutIfAbsentKeepsPresent<V>(m: JavaMap<V>, key: int32, value: Option<V>)
    requires GetOrNull(m, key).Some?
    ensures PutIfAbsent(m, key, value) == m
  {
  }

  /** From an empty table, a key that was never registered has no entry in either kind of map. */
  lemma UnregisteredIsNull<V>(regs: seq<Registration<V>>, key: int32)
    requires !Registered(regs, key)
    ensures GetOrNull(PutAll(map[], regs), key) == None
    ensures GetOrNull(PutAllIfAbsent(map[], regs), key) == None
  {
    PutAllKeepsLast(map[], regs, key);
    PutAllIfAbsentKeepsFirst(map[], regs, key);
  }

  class HandlePbBeanManager<Method, Clazz> {
    var parseFromMethodMap: JavaMap<Method>
    var handleClassMap: JavaMap<Clazz>
    var handleMethodMap: JavaMap<Method>

    constructor ()
      ensures parseFromMethodMap == map[] && handleClassMap == map[] && handleMethodMap == map[]
    {
      parseFromMethodMap := map[];
      handleClassMap := map[];
      handleMethodMap := map[];
    }

    /** Registers the parser of a protocol id; a later registration wins. */
    method SetParseFromMethodMap(key: int32, handler: Option<Method>)
      modifies this
      ensures parseFromMethodMap == Put(old(parseFromMethodMap), key, handler)
      ensures handleClassMap == old(handleClassMap) && handleMethodMap == old(handleMethodMap)
    {
      parseFromMethodMap := parseFromMethodMap[key := handler];
    }

    /** Registers the handler class of a protocol id; the first non-null registration wins. */
    method SetHandleClassMap(key: int32, clazz: Option<Clazz>)
      modifies this
      ensures handleClassMap == PutIfAbsent(old(handleClassMap), key, clazz)
      ensures parseFromMethodMap == old(parseFromMethodMap) && handleMethodMap == old(handleMethodMap)
    {
      if !(key in handleClassMap && handleClassMap[key].Some?) {
        handleClassMap := handleClassMap[key := clazz];
      }
    }

    /** Registers the handler method of a protocol id; a later registration wins. */
    method SetHandleMethodMap(key: int32, handler: Option<Method>)
      modifies this
      ensures handleMethodMap == Put(old(handleMethodMap), key, handler)
      ensures parseFromMethodMap == old(parseFromMethodMap) && handleClassMap == old(handleClassMap)
    {
      handleMethodMap := handleMethodMap[key := handler];
    }

    method GetParseFromMethod(key: int32) returns (r: Option<Method>)
      ensures r == GetOrNull(parseFromMethodMap, key)
    {
      r := if key in parseFromMethodMap then parseFromMethodMap[key] else None;
    }

    method GetClassHandle(key: int32) returns (r: Option<Clazz>)
      ensures r == GetOrNull(handleClassMap, key)
    {
      r := if key in handleClassMap then handleClassMap[key] else None;
    }

    method GetHandleMethod(key: int32) returns (r: Option<Method>)
      ensures r == GetOrNull(handleMethodMap, key)
    {
      r := if key in handleMethodMap then handleMethodMap[key] else None;
    }
  }
}
