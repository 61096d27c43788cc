/**
 * The decoder as the source writes it: an object holding the four maps,
 * whose `AbiParser` registers an ABI on first contact with a counting loop,
 * a slot index into three scratch slices, a per-type loop over the eight
 * patterns and string accumulation, and whose `Decode` fills a row table
 * slot by slot. Each method is proved to make exactly the transition the
 * functions of `ContractClient` describe.
 */
module AbiProcessor {
  import Hex
  import opened GoStrings
  import opened AbiTypes
  import opened ContractClient

  /** The number of non-constant methods. */
  function NonConstCount(ms: seq<Method>): (n: nat)
    ensures n <= |ms|
    decreases |ms|
  {
    if ms == [] then 0 else (if ms[0].isConst then 0 else 1) + NonConstCount(ms[1..])
  }

  /**
   * The per-type test of the registration loop: counts the patterns that do
   * not match; the type is unsupported when none matches.
   */
  method CountMismatches(typ: string) returns (misses: nat)
    ensures misses <= |SupportedDatatypes|
    ensures misses == |SupportedDatatypes| <==> !IsSupported(typ)
  {
    misses := 0;
    for p := 0 to |SupportedDatatypes|
      invariant misses <= p
      invariant misses == p <==> forall q :: 0 <= q < p ==> !Matches(SupportedDatatypes[q], typ)
    {
      if !Matches(SupportedDatatypes[p], typ) {
        misses := misses + 1;
      }
    }
  }

  /** One more input extends both accumulated lists by its entry and a comma. */
  lemma AccumulateStep(inputs: seq<Param>, e: nat)
    requires e < |inputs|
    ensures Terminated(TypesOf(inputs[..e + 1]), ',') == Terminated(TypesOf(inputs[..e]), ',') + inputs[e].typ + ","
    ensures Terminated(NamesOf(inputs[..e + 1]), ',') == Terminated(NamesOf(inputs[..e]), ',') + inputs[e].name + ","
  {
    assert inputs[..e + 1] == inputs[..e] + [inputs[e]];
    assert TypesOf(inputs[..e + 1]) == TypesOf(inputs[..e]) + [inputs[e].typ];
    assert NamesOf(inputs[..e + 1]) == NamesOf(inputs[..e]) + [inputs[e].name];
    TerminatedAppend(TypesOf(inputs[..e]), inputs[e].typ, ',');
    TerminatedAppend(NamesOf(inputs[..e]), inputs[e].name, ',');
  }

  /**
   * The loop over one method's inputs: tests each type in declared order and
   * stops at the first unsupported one; otherwise returns the types and the
   * names, each followed by a comma.
   */
  method AccumulateInputs(inputs: seq<Param>) returns (supported: bool, funcSig: string, params: string)
    ensures supported == forall q :: 0 <= q < |inputs| ==> IsSupported(inputs[q].typ)
    ensures supported ==> funcSig == Terminated(TypesOf(inputs), ',') && params == Terminated(NamesOf(inputs), ',')
  {
    funcSig, params := "", "";
    var e := 0;
    while e < |inputs|
      invariant 0 <= e <= |inputs|
      invariant funcSig == Terminated(TypesOf(inputs[..e]), ',')
      invariant params == Terminated(NamesOf(inputs[..e]), ',')
      invariant forall q :: 0 <= q < e ==> IsSupported(inputs[q].typ)
    {
      var elem := inputs[e];
      var misses := CountMismatches(elem.typ);
      if misses == |SupportedDatatypes| {
        return false, funcSig, params;
      }
      AccumulateStep(inputs, e);
      funcSig := funcSig + elem.typ + ",";
      params := params + elem.name + ",";
      e := e + 1;
    }
    assert inputs[..e] == inputs;
    supported := true;
  }

  /** Fills a table of `n` rows, slot by slot, pairing names with stringified values. */
  method FillTable<V>(n: nat, names: seq<string>, values: seq<V>, sprint: V -> string) returns (rows: seq<Row>)
    requires |names| >= n && |values| >= n
    ensures |rows| == n
    ensures forall q :: 0 <= q < n ==> rows[q] == Row(names[q], sprint(values[q]))
  {
    var paramTable := new Row[n](_ => Row("", ""));
    for i := 0 to n
      invariant forall q :: 0 <= q < i ==> paramTable[q] == Row(names[q], sprint(values[q]))
    {
      paramTable[i] := Row(names[i], sprint(values[i]));
    }
    rows := paramTable[..];
  }

  /** The size of the scratch slices: one slot per non-constant method. */
  method CountNonConst(methods: seq<Method>) returns (size: nat)
    ensures size == NonConstCount(methods)
  {
    size := 0;
    var k := 0;
    while k < |methods|
      invariant 0 <= k <= |methods|
      invariant size + NonConstCount(methods[k..]) == NonConstCount(methods)
    {
      assert methods[k..][1..] == methods[k + 1..];
      if !methods[k].isConst {
        size := size + 1;
      }
      k := k + 1;
    }
  }

  class Processor<V> {
    var abiMap: map<string, string>
    var funcSigMap: map<Key, string>
    var funcParamNameMap: map<Key, string>
    var funcNameMap: map<Key, string>

    /** Keccak-256 of a text's bytes. */
    const keccak: string -> Digest
    /** The external decoder of an encoded argument block, given the comma-joined types. */
    const getResults: (string, string) -> seq<V>
    /** Go's `fmt.Sprint`. */
    const sprint: V -> string

    function State(): Tables
      reads this
    {
      Tables(abiMap, funcSigMap, funcParamNameMap, funcNameMap)
    }

    ghost predicate Valid()
      reads this
    {
      Consistent(State(), keccak) && Covers(getResults)
    }

    constructor (keccak: string -> Digest, getResults: (string, string) -> seq<V>, sprint: V -> string)
      requires Covers(getResults)
      ensures Valid() && State() == EmptyTables
      ensures this.keccak == keccak && this.getResults == getResults && this.sprint == sprint
    {
      this.keccak := keccak;
      this.getResults := getResults;
      this.sprint := sprint;
      abiMap := map[];
      funcSigMap := map[];
      funcParamNameMap := map[];
      funcNameMap := map[];
    }

    /**
     * The entry operation; `methods` is the parse of `abiContent`, in the
     * (arbitrary) order of the parsed method map.
     */
    method AbiParser(contractAdd: string, abiContent: string, methods: seq<Method>, payload: string)
      returns (rows: seq<Row>, funcName: string)
      requires Valid()
      requires ShortCircuits(State(), contractAdd, methods) || |payload| >= 10
      modifies this
      ensures Valid()
      ensures (State(), Output(rows, funcName))
           == ContractClient.AbiParser(old(State()), contractAdd, abiContent, methods, payload, keccak, getResults, sprint)
    {
      if Get(abiMap, contractAdd) == "" {
        abiMap := abiMap[contractAdd := abiContent];
        ghost var t0 := State();
        var size := CountNonConst(methods);
        var functionSigs := new string[size];
        var paramNames := new string[size];
        var keccakHashes := new string[size];
        var i := 1;
        var j := 0;
        while j < |methods|
          invariant 0 <= j <= |methods|
          invariant 1 <= i && i - 1 + NonConstCount(methods[j..]) == size
          invariant Consistent(State(), keccak)
          invariant State().abiMap == t0.abiMap
          invariant Register(t0, contractAdd, methods, keccak) == Register(State(), contractAdd, methods[j..], keccak)
        {
          var m := methods[j];
          assert methods[j..][0] == m && methods[j..][1..] == methods[j + 1..];
          if !m.isConst {
            var unsupported := RegisterMethod(contractAdd, m, i - 1, functionSigs, paramNames, keccakHashes);
            if unsupported {
              return UnsupportedOutput.rows, UnsupportedOutput.funcName;
            }
            i := i + 1;
          }
          j := j + 1;
        }
      } else if Get(abiMap, contractAdd) == UnsupportedMarker {
        return UnsupportedOutput.rows, UnsupportedOutput.funcName;
      }
      rows, funcName := Decode(payload, contractAdd);
    }

    /**
     * The body of the registration loop for one non-constant method, in slot
     * `slot` of the three scratch slices: checks every input type, accumulating
     * the type and name lists; on the first unsupported type marks the address
     * and reports it; otherwise writes the method's three table entries.
     */
    method RegisterMethod(contractAdd: string, m: Method, slot: nat,
                          functionSigs: array<string>, paramNames: array<string>, keccakHashes: array<string>)
      returns (unsupported: bool)
      requires Valid() && !m.isConst
      requires slot < functionSigs.Length && slot < paramNames.Length && slot < keccakHashes.Length
      requires functionSigs != paramNames && functionSigs != keccakHashes && paramNames != keccakHashes
      modifies this, functionSigs, paramNames, keccakHashes
      ensures Valid()
      ensures unsupported == !InputsSupported(m)
      ensures State() == if unsupported then old(State()).(abiMap := old(abiMap)[contractAdd := UnsupportedMarker])
                         else Store(old(State()), contractAdd, m, keccak)
    {
      ghost var t := State();
      assert Consistent(t, keccak);
      var supported, funcSig, params := AccumulateInputs(m.inputs);
      if !supported {
        abiMap := abiMap[contractAdd := UnsupportedMarker];
        assert State() == t.(abiMap := t.abiMap[contractAdd := UnsupportedMarker]);
        return true;
      }
      TrimTerminated(TypesOf(m.inputs), ',');
      TrimTerminated(NamesOf(m.inputs), ',');
      ghost var sig, names := Join(TypesOf(m.inputs), ','), Join(NamesOf(m.inputs), ',');
      assert TrimSuffix(funcSig, ",") == sig && TrimSuffix(params, ",") == names;
      var paramList := TrimSuffix(params, ",");
      var typeList := TrimSuffix(funcSig, ",");
      var display := m.name + "(" + typeList + ")";
      assert display == Signature(m);
      var selector := Hex.Encode(keccak(display)[..4]);
      paramNames[slot] := paramList;
      functionSigs[slot] := display;
      keccakHashes[slot] := selector;
      // The signature slot is reused for the bare type list once the selector is known.
      functionSigs[slot] := typeList;
      StoreEntry((contractAdd, selector), typeList, paramList, display);
      assert State() == Store(t, contractAdd, m, keccak);
      StorePreserves(t, contractAdd, m, keccak);
      unsupported := false;
    }

    /** Writes one method's entry into the three method tables. */
    method StoreEntry(key: Key, sig: string, names: string, display: string)
      modifies this
      ensures abiMap == old(abiMap)
      ensures funcSigMap == old(funcSigMap)[key := sig]
      ensures funcParamNameMap == old(funcParamNameMap)[key := names]
      ensures funcNameMap == old(funcNameMap)[key := display]
    {
      funcParamNameMap := funcParamNameMap[key := names];
      funcSigMap := funcSigMap[key := sig];
      funcNameMap := funcNameMap[key := display];
    }

    /** Looks up the selector `r[2..10]` and decodes the rest of `r` with the stored types. */
    method Decode(r: string, contractAdd: string) returns (rows: seq<Row>, funcName: string)
      requires Valid() && |r| >= 10
      modifies this
      ensures Valid()
      ensures (State(), Output(rows, funcName)) == ContractClient.Decode(old(State()), r, contractAdd, getResults, sprint)
    {
      ghost var t := State();
      assert Consistent(t, keccak);
      var keccakHash := r[2..10];
      var key := (contractAdd, keccakHash);
      if Get(funcSigMap, key) == "" {
        abiMap := abiMap[contractAdd := ""];
        return MismatchOutput.rows, MismatchOutput.funcName;
      }
      var encodedParams := r[10..];
      var params := Split(Get(funcSigMap, key), ',');
      if r == "" || |r| < 1 {
        // The slice above has already required ten characters.
        assert false;
      }
      var paramNamesArr := Split(Get(funcParamNameMap, key), ',');
      var resultArray := getResults(Get(funcSigMap, key), encodedParams);
      assert |paramNamesArr| >= |params| && |resultArray| >= |params|;
      rows := FillTable(|params|, paramNamesArr, resultArray, sprint);
      funcName := Get(funcNameMap, key);
      assert rows == seq(|params|, q requires 0 <= q < |params| => Row(paramNamesArr[q], sprint(resultArray[q])));
    }
  }
}
