/**
 * The contract-call decoder as state transitions on four tables: the
 * per-address registration text (`abiMap`) and, keyed by address and
 * selector, the comma-joined parameter types, the comma-joined parameter
 * names and the display text `name(types)`. `AbiParser` and `Decode` are the
 * specifications the imperative `AbiProcessor.Processor` is proved against;
 * the lemmas state what the source promises about them.
 */
module ContractClient {
  import Hex
  import opened GoStrings
  import opened AbiTypes

  /** One declared input of a method: its name and its type text. */
  datatype Param = Param(name: string, typ: string)

  /** One method of a parsed ABI; `isConst` marks a read-only method. */
  datatype Method = Method(name: string, isConst: bool, inputs: seq<Param>)

  /** One row of a decode result (`ParamTableRow`). */
  datatype Row = Row(key: string, value: string)

  /** The rows and the display name of the called function. */
  datatype Output = Output(rows: seq<Row>, funcName: string)

  const UnsupportedMarker: string := "Unsupported"
  const FailedKey: string := "decodeFailed"
  const UnsupportedOutput: Output := Output([Row(FailedKey, "Unsupported Datatype")], "")
  const MismatchOutput: Output := Output([Row(FailedKey, "ABI Mismatch")], "")

  /** A Keccak-256 digest. */
  type Digest = s: seq<Hex.Byte> | |s| == 32 witness seq(32, _ => 0 as Hex.Byte)

  /** A selector-table key: the contract address and the selector text. */
  type Key = (string, string)

  datatype Tables = Tables(
    abiMap: map<string, string>,
    sigs: map<Key, string>,
    names: map<Key, string>,
    displays: map<Key, string>)

  const EmptyTables: Tables := Tables(map[], map[], map[], map[])

  /** A Go map read: the empty string for a missing key. */
  function Get<K>(m: map<K, string>, k: K): string {
    if k in m then m[k] else ""
  }

  /** The source's composite key text `addr + ":" + selector`. */
  function GoKey(addr: string, sel: string): string {
    addr + ":" + sel
  }

  /**
   * Selectors are always eight characters, so the composite text determines
   * the address and the selector; a pair key is equivalent to it.
   */
  lemma GoKeyInjective(a1: string, s1: string, a2: string, s2: string)
    requires |s1| == 8 && |s2| == 8
    ensures GoKey(a1, s1) == GoKey(a2, s2) <==> a1 == a2 && s1 == s2
  {
    if GoKey(a1, s1) == GoKey(a2, s2) {
      var k := GoKey(a1, s1);
      assert |a1| == |a2|;
      assert a1 == k[..|a1|] && a2 == k[..|a2|];
      assert s1 == k[|k| - 8..] && s2 == k[|k| - 8..];
    }
  }

  function TypesOf(ps: seq<Param>): (r: seq<string>)
    ensures |r| == |ps| && forall i :: 0 <= i < |ps| ==> r[i] == ps[i].typ
  {
    seq(|ps|, i requires 0 <= i < |ps| => ps[i].typ)
  }

  function NamesOf(ps: seq<Param>): (r: seq<string>)
    ensures |r| == |ps| && forall i :: 0 <= i < |ps| ==> r[i] == ps[i].name
  {
    seq(|ps|, i requires 0 <= i < |ps| => ps[i].name)
  }

  /** `name(type1,...,typeN)`: the hashed canonical text, also used for display. */
  function Signature(m: Method): (sig: string)
    ensures |sig| >= |m.name| + 2
    ensures sig[..|m.name| + 1] == m.name + "(" && sig[|sig| - 1] == ')'
  {
    m.name + "(" + Join(TypesOf(m.inputs), ',') + ")"
  }

  /** The first four digest bytes of a text, as lowercase hex. */
  function Selector(hash: string -> Digest, text: string): (sel: string)
    ensures |sel| == 8
    ensures forall i :: 0 <= i < 8 ==> Hex.IsLowerHexDigit(sel[i])
  {
    Hex.Encode(hash(text)[..4])
  }

  predicate InputsSupported(m: Method) {
    forall j :: 0 <= j < |m.inputs| ==> IsSupported(m.inputs[j].typ)
  }

  /** Every non-constant method has only supported inputs; constant methods are not looked at. */
  predicate AllSupported(ms: seq<Method>) {
    forall i :: 0 <= i < |ms| && !ms[i].isConst ==> InputsSupported(ms[i])
  }

  lemma AllSupportedCons(ms: seq<Method>)
    requires ms != []
    ensures AllSupported(ms) <==> (ms[0].isConst || InputsSupported(ms[0])) && AllSupported(ms[1..])
  {
    if (ms[0].isConst || InputsSupported(ms[0])) && AllSupported(ms[1..]) {
      forall i | 0 <= i < |ms| && !ms[i].isConst ensures InputsSupported(ms[i]) {
        if i > 0 { assert ms[i] == ms[1..][i - 1]; }
      }
    }
  }

  /** The three table entries one method writes. */
  function Store(t: Tables, addr: string, m: Method, hash: string -> Digest): Tables {
    var key := (addr, Selector(hash, Signature(m)));
    t.(sigs := t.sigs[key := Join(TypesOf(m.inputs), ',')],
       names := t.names[key := Join(NamesOf(m.inputs), ',')],
       displays := t.displays[key := Signature(m)])
  }

  /** The three selector tables have the same keys, and every name list has at least as many items as its type list. */
  ghost predicate WellFormed(t: Tables) {
    && t.sigs.Keys == t.names.Keys == t.displays.Keys
    && forall k :: k in t.sigs ==> |Split(t.names[k], ',')| >= |Split(t.sigs[k], ',')|
  }

  /** Moreover each key's selector is the hash prefix of its display text. */
  ghost predicate Consistent(t: Tables, hash: string -> Digest) {
    && WellFormed(t)
    && forall k :: k in t.displays ==> Selector(hash, t.displays[k]) == k.1
  }

  /** The stored type list splits back into the declared types. */
  lemma StoredTypesSplit(m: Method)
    requires InputsSupported(m) && |m.inputs| >= 1
    ensures Split(Join(TypesOf(m.inputs), ','), ',') == TypesOf(m.inputs)
  {
    var ts := TypesOf(m.inputs);
    forall i | 0 <= i < |ts| ensures ',' !in ts[i] {
      SupportedHasNoComma(m.inputs[i].typ);
    }
    SplitJoin(ts, ',');
  }

  /** The entry one supported method writes has at least as many names as types. */
  lemma StoredCounts(m: Method)
    requires InputsSupported(m)
    ensures |Split(Join(NamesOf(m.inputs), ','), ',')| >= |Split(Join(TypesOf(m.inputs), ','), ',')|
  {
    if |m.inputs| >= 1 {
      StoredTypesSplit(m);
      SplitJoinLength(NamesOf(m.inputs), ',');
    }
  }

  lemma StorePreserves(t: Tables, addr: string, m: Method, hash: string -> Digest)
    requires InputsSupported(m)
    ensures WellFormed(t) ==> WellFormed(Store(t, addr, m, hash))
    ensures Consistent(t, hash) ==> Consistent(Store(t, addr, m, hash), hash)
  {
    if WellFormed(t) {
      StoreKeepsCounts(t, addr, m, hash);
    }
    if Consistent(t, hash) {
      StoreKeepsSelectors(t, addr, m, hash);
    }
  }

  lemma StoreKeepsCounts(t: Tables, addr: string, m: Method, hash: string -> Digest)
    requires InputsSupported(m) && WellFormed(t)
    ensures WellFormed(Store(t, addr, m, hash))
  {
    var key := (addr, Selector(hash, Signature(m)));
    var t' := Store(t, addr, m, hash);
    assert t'.sigs.Keys == t.sigs.Keys + {key};
    assert t'.names.Keys == t.names.Keys + {key};
    assert t'.displays.Keys == t.displays.Keys + {key};
    forall k | k in t'.sigs
      ensures |Split(t'.names[k], ',')| >= |Split(t'.sigs[k], ',')|
    {
      if k == key {
        StoredCounts(m);
      }
    }
  }

  lemma StoreKeepsSelectors(t: Tables, addr: string, m: Method, hash: string -> Digest)
    requires InputsSupported(m) && Consistent(t, hash)
    ensures Consistent(Store(t, addr, m, hash), hash)
  {
    StoreKeepsCounts(t, addr, m, hash);
  }

  /** The table entries outside address `addr` agree. */
  ghost predicate SameOutside(t: Tables, t': Tables, addr: string) {
    forall k: Key | k.0 != addr ::
      && Get(t'.sigs, k) == Get(t.sigs, k)
      && Get(t'.names, k) == Get(t.names, k)
      && Get(t'.displays, k) == Get(t.displays, k)
  }

  /**
   * The registration loop over the non-constant methods, in the given order:
   * each writes its three entries (a later method with the same selector
   * overwrites an earlier one); the first unsupported input stops it with
   * `false`, keeping what earlier methods wrote.
   */
  function Register(t: Tables, addr: string, ms: seq<Method>, hash: string -> Digest): (r: (Tables, bool))
    ensures r.1 == AllSupported(ms)
    ensures r.0.abiMap == t.abiMap
    ensures WellFormed(t) ==> WellFormed(r.0)
    ensures Consistent(t, hash) ==> Consistent(r.0, hash)
    ensures SameOutside(t, r.0, addr)
    ensures t.sigs.Keys <= r.0.sigs.Keys
    decreases |ms|
  {
    if ms == [] then (t, true)
    else
      AllSupportedCons(ms);
      if ms[0].isConst then Register(t, addr, ms[1..], hash)
      else if !InputsSupported(ms[0]) then (t, false)
      else
        StorePreserves(t, addr, ms[0], hash);
        Register(Store(t, addr, ms[0], hash), addr, ms[1..], hash)
  }

  /** The external value decoder returns a value for every stored type. */
  ghost predicate Covers<V>(getResults: (string, string) -> seq<V>) {
    forall types, encoded :: |getResults(types, encoded)| >= |Split(types, ',')|
  }

  /**
   * Decode of payload `r` for `addr`: the selector is `r[2..10]`. A miss (an
   * empty type list) resets only the address's registration; a hit pairs
   * each stored name with the stringified decoded value and changes nothing.
   */
  function Decode<V>(t: Tables, r: string, addr: string,
                     getResults: (string, string) -> seq<V>, sprint: V -> string): (res: (Tables, Output))
    requires |r| >= 10 && WellFormed(t) && Covers(getResults)
    ensures WellFormed(res.0)
    ensures res.0.sigs == t.sigs && res.0.names == t.names && res.0.displays == t.displays
    ensures forall a :: a != addr ==> Get(res.0.abiMap, a) == Get(t.abiMap, a)
  {
    var key := (addr, r[2..10]);
    var sig := Get(t.sigs, key);
    if sig == "" then
      (t.(abiMap := t.abiMap[addr := ""]), MismatchOutput)
    else
      var types := Split(sig, ',');
      var names := Split(t.names[key], ',');
      var values := getResults(sig, r[10..]);
      (t, Output(seq(|types|, i requires 0 <= i < |types| => Row(names[i], sprint(values[i]))), t.displays[key]))
  }

  /**
   * The call for an address seen for the first time: `content` is stored and
   * the methods registered; an unsupported input marks the address instead.
   */
  function FirstContact<V>(t: Tables, addr: string, content: string, ms: seq<Method>, payload: string,
                           hash: string -> Digest, getResults: (string, string) -> seq<V>,
                           sprint: V -> string): (res: (Tables, Output))
    requires WellFormed(t) && Covers(getResults)
    requires !AllSupported(ms) || |payload| >= 10
  {
    var r := Register(t.(abiMap := t.abiMap[addr := content]), addr, ms, hash);
    if !r.1 then (r.0.(abiMap := r.0.abiMap[addr := UnsupportedMarker]), UnsupportedOutput)
    else Decode(r.0, payload, addr, getResults, sprint)
  }

  /** The tables a first contact registers into: `content` stored for `addr`. */
  lemma StoreContent(t: Tables, addr: string, content: string, hash: string -> Digest)
    requires WellFormed(t)
    ensures var t0 := t.(abiMap := t.abiMap[addr := content]);
      && WellFormed(t0) && (Consistent(t, hash) ==> Consistent(t0, hash)) && SameOutside(t, t0, addr)
  {
  }

  /** Marking an address keeps the method tables as they are. */
  lemma MarkPreserves(t: Tables, t1: Tables, addr: string, hash: string -> Digest)
    requires WellFormed(t1) && SameOutside(t, t1, addr)
    ensures var t2 := t1.(abiMap := t1.abiMap[addr := UnsupportedMarker]);
      && WellFormed(t2) && (Consistent(t1, hash) ==> Consistent(t2, hash)) && SameOutside(t, t2, addr)
      && forall a :: a != addr ==> Get(t2.abiMap, a) == Get(t1.abiMap, a)
  {
  }

  /** A first contact keeps the table invariants and touches only its own address. */
  lemma FirstContactPreserves<V>(t: Tables, addr: string, content: string, ms: seq<Method>, payload: string,
                                 hash: string -> Digest, getResults: (string, string) -> seq<V>,
                                 sprint: V -> string)
    requires WellFormed(t) && Covers(getResults)
    requires !AllSupported(ms) || |payload| >= 10
    ensures var res := FirstContact(t, addr, content, ms, payload, hash, getResults, sprint);
      && WellFormed(res.0)
      && (Consistent(t, hash) ==> Consistent(res.0, hash))
      && SameOutside(t, res.0, addr)
      && forall a :: a != addr ==> Get(res.0.abiMap, a) == Get(t.abiMap, a)
  {
    StoreContent(t, addr, content, hash);
    var t0 := t.(abiMap := t.abiMap[addr := content]);
    var t1 := Register(t0, addr, ms, hash).0;
    if !AllSupported(ms) {
      MarkPreserves(t, t1, addr, hash);
    }
  }

  /** The calls that return before reaching Decode, so need no payload. */
  predicate ShortCircuits(t: Tables, addr: string, ms: seq<Method>) {
    || Get(t.abiMap, addr) == UnsupportedMarker
    || (Get(t.abiMap, addr) == "" && !AllSupported(ms))
  }

  /**
   * The entry operation. `ms` is the method list parsed from `content`.
   * An unregistered address stores `content` and registers the methods
   * (aborting to the terminal marker on an unsupported input); a marked
   * address gets the failure row; any other address goes straight to Decode.
   */
  function AbiParser<V>(t: Tables, addr: string, content: string, ms: seq<Method>, payload: string,
                        hash: string -> Digest, getResults: (string, string) -> seq<V>,
                        sprint: V -> string): (res: (Tables, Output))
    requires WellFormed(t) && Covers(getResults)
    requires ShortCircuits(t, addr, ms) || |payload| >= 10
    ensures WellFormed(res.0)
    ensures Consistent(t, hash) ==> Consistent(res.0, hash)
    ensures SameOutside(t, res.0, addr)
    ensures forall a :: a != addr ==> Get(res.0.abiMap, a) == Get(t.abiMap, a)
  {
    if Get(t.abiMap, addr) == "" then
      FirstContactPreserves(t, addr, content, ms, payload, hash, getResults, sprint);
      FirstContact(t, addr, content, ms, payload, hash, getResults, sprint)
    else if Get(t.abiMap, addr) == UnsupportedMarker then
      (t, UnsupportedOutput)
    else
      Decode(t, payload, addr, getResults, sprint)
  }
}
