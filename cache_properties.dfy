/**
 * What the decoder promises about its cache: the lifecycle of one address
 * (unregistered, registered, unsupported for every later `AbiParser` call),
 * the entries one registration writes, and the results of a decode hit and a
 * decode miss.
 */
module CacheProperties {
  import Hex
  import opened GoStrings
  import opened ContractClient

  // ---------------------------------------------------------------------
  // Registration
  // ---------------------------------------------------------------------

  /** No non-constant method of `ms` has selector `sel`. */
  predicate NoMethodWith(ms: seq<Method>, sel: string, hash: string -> Digest) {
    forall i :: 0 <= i < |ms| && !ms[i].isConst ==> Selector(hash, Signature(ms[i])) != sel
  }

  /** Every non-constant method of `ms` with the selector of `m` is `m` itself. */
  predicate OnlyMethodWith(ms: seq<Method>, m: Method, hash: string -> Digest) {
    forall i :: 0 <= i < |ms| && !ms[i].isConst && Selector(hash, Signature(ms[i])) == Selector(hash, Signature(m)) ==> ms[i] == m
  }

  /** A selector no method of the list produces keeps its entries. */
  lemma {:induction false} RegisterUntouched(t: Tables, addr: string, ms: seq<Method>, sel: string, hash: string -> Digest)
    requires NoMethodWith(ms, sel, hash)
    ensures var r := Register(t, addr, ms, hash).0;
      && Get(r.sigs, (addr, sel)) == Get(t.sigs, (addr, sel))
      && Get(r.names, (addr, sel)) == Get(t.names, (addr, sel))
      && Get(r.displays, (addr, sel)) == Get(t.displays, (addr, sel))
    decreases |ms|
  {
    if ms != [] {
      assert NoMethodWith(ms[1..], sel, hash) by {
        forall i | 0 <= i < |ms[1..]| && !ms[1..][i].isConst ensures Selector(hash, Signature(ms[1..][i])) != sel {
          assert ms[1..][i] == ms[i + 1];
        }
      }
      if ms[0].isConst {
        RegisterUntouched(t, addr, ms[1..], sel, hash);
      } else if InputsSupported(ms[0]) {
        RegisterUntouched(Store(t, addr, ms[0], hash), addr, ms[1..], sel, hash);
      }
    }
  }

  /**
   * When `m` is the only non-constant method with its selector, registration
   * leaves under that selector the declared types and names of `m`, each
   * comma-joined in declared order, and its display text `name(types)`.
   */
  lemma {:induction false} RegisterEntry(t: Tables, addr: string, ms: seq<Method>, m: Method, hash: string -> Digest)
    requires AllSupported(ms) && m in ms && !m.isConst && OnlyMethodWith(ms, m, hash)
    ensures var r := Register(t, addr, ms, hash).0; var key := (addr, Selector(hash, Signature(m)));
      && Get(r.sigs, key) == Join(TypesOf(m.inputs), ',')
      && Get(r.names, key) == Join(NamesOf(m.inputs), ',')
      && Get(r.displays, key) == Signature(m)
    decreases |ms|
  {
    var sel := Selector(hash, Signature(m));
    AllSupportedCons(ms);
    assert OnlyMethodWith(ms[1..], m, hash) by {
      forall i | 0 <= i < |ms[1..]| ensures ms[1..][i] == ms[i + 1] { }
    }
    if ms[0].isConst || ms[0] != m {
      var t1 := if ms[0].isConst then t else Store(t, addr, ms[0], hash);
      assert m in ms[1..];
      RegisterEntry(t1, addr, ms[1..], m, hash);
    } else if m in ms[1..] {
      RegisterEntry(Store(t, addr, m, hash), addr, ms[1..], m, hash);
    } else {
      assert NoMethodWith(ms[1..], sel, hash) by {
        forall i | 0 <= i < |ms[1..]| && !ms[1..][i].isConst ensures Selector(hash, Signature(ms[1..][i])) != sel {
          assert ms[1..][i] == ms[i + 1];
          assert ms[1..][i] != m;
        }
      }
      RegisterUntouched(Store(t, addr, m, hash), addr, ms[1..], sel, hash);
    }
  }

  /**
   * The registered type and name lists of a method with inputs split back
   * into one piece per input, so they have equal counts, provided no name
   * holds a comma (types never do).
   */
  lemma EntryCounts(t: Tables, addr: string, ms: seq<Method>, m: Method, hash: string -> Digest)
    requires AllSupported(ms) && m in ms && !m.isConst && OnlyMethodWith(ms, m, hash)
    requires |m.inputs| >= 1 && forall i :: 0 <= i < |m.inputs| ==> ',' !in m.inputs[i].name
    ensures var r := Register(t, addr, ms, hash).0; var key := (addr, Selector(hash, Signature(m)));
      && Split(Get(r.sigs, key), ',') == TypesOf(m.inputs)
      && Split(Get(r.names, key), ',') == NamesOf(m.inputs)
  {
    RegisterEntry(t, addr, ms, m, hash);
    assert InputsSupported(m);
    StoredTypesSplit(m);
    SplitJoin(NamesOf(m.inputs), ',');
  }

  /** Every non-constant method gets an entry under its selector, whatever the order and collisions. */
  lemma {:induction false} RegisterCovers(t: Tables, addr: string, ms: seq<Method>, m: Method, hash: string -> Digest)
    requires AllSupported(ms) && m in ms && !m.isConst
    ensures (addr, Selector(hash, Signature(m))) in Register(t, addr, ms, hash).0.sigs
    decreases |ms|
  {
    AllSupportedCons(ms);
    var t1 := if ms[0].isConst then t else Store(t, addr, ms[0], hash);
    if m in ms[1..] {
      RegisterCovers(t1, addr, ms[1..], m, hash);
    }
  }

  /** Replacing a constant method by another constant method changes nothing: their inputs are never checked. */
  lemma {:induction false} ConstInputsNeverChecked(t: Tables, addr: string, ms: seq<Method>, i: nat, c: Method, hash: string -> Digest)
    requires i < |ms| && ms[i].isConst && c.isConst
    ensures Register(t, addr, ms[i := c], hash) == Register(t, addr, ms, hash)
    decreases |ms|
  {
    var ms' := ms[i := c];
    if i == 0 {
      assert ms'[1..] == ms[1..];
    } else {
      assert ms'[1..] == ms[1..][i - 1 := c];
      assert ms'[0] == ms[0];
      var t1 := if ms[0].isConst || !InputsSupported(ms[0]) then t else Store(t, addr, ms[0], hash);
      ConstInputsNeverChecked(t1, addr, ms[1..], i - 1, c, hash);
    }
  }

  // ---------------------------------------------------------------------
  // The lifecycle of one address
  // ---------------------------------------------------------------------

  /**
   * First contact with an ABI that has an unsupported input in a non-constant
   * method: one failure row, no function name, the address marked
   * unsupported, and the payload never looked at.
   */
  lemma UnsupportedOnFirstContact<V>(t: Tables, addr: string, content: string, ms: seq<Method>, payload: string,
                                     other: string, hash: string -> Digest,
                                     getResults: (string, string) -> seq<V>, sprint: V -> string)
    requires WellFormed(t) && Covers(getResults)
    requires Get(t.abiMap, addr) == "" && !AllSupported(ms)
    ensures var res := AbiParser(t, addr, content, ms, payload, hash, getResults, sprint);
      && res.1 == UnsupportedOutput && res.1.funcName == ""
      && res.0.abiMap == t.abiMap[addr := UnsupportedMarker]
      && res == AbiParser(t, addr, content, ms, other, hash, getResults, sprint)
  {
    FirstContactTaken(t, addr, content, ms, payload, hash, getResults, sprint);
    FirstContactTaken(t, addr, content, ms, other, hash, getResults, sprint);
    FirstContactFails(t, addr, content, ms, payload, hash, getResults, sprint);
    FirstContactFails(t, addr, content, ms, other, hash, getResults, sprint);
  }

  /** An unregistered address is handled by the first-contact path. */
  lemma FirstContactTaken<V>(t: Tables, addr: string, content: string, ms: seq<Method>, payload: string,
                             hash: string -> Digest, getResults: (string, string) -> seq<V>, sprint: V -> string)
    requires WellFormed(t) && Covers(getResults)
    requires Get(t.abiMap, addr) == "" && (!AllSupported(ms) || |payload| >= 10)
    ensures AbiParser(t, addr, content, ms, payload, hash, getResults, sprint)
         == FirstContact(t, addr, content, ms, payload, hash, getResults, sprint)
  {
  }

  /** The state a failed first registration leaves behind depends on nothing but the registration. */
  lemma FirstContactFails<V>(t: Tables, addr: string, content: string, ms: seq<Method>, payload: string,
                             hash: string -> Digest, getResults: (string, string) -> seq<V>, sprint: V -> string)
    requires WellFormed(t) && Covers(getResults) && !AllSupported(ms)
    ensures var t1 := Register(t.(abiMap := t.abiMap[addr := content]), addr, ms, hash).0;
      FirstContact(t, addr, content, ms, payload, hash, getResults, sprint)
        == (t1.(abiMap := t.abiMap[addr := UnsupportedMarker]), UnsupportedOutput)
  {
    var r := Register(t.(abiMap := t.abiMap[addr := content]), addr, ms, hash);
    assert FirstContact(t, addr, content, ms, payload, hash, getResults, sprint)
        == (r.0.(abiMap := r.0.abiMap[addr := UnsupportedMarker]), UnsupportedOutput);
    Overwrite(t.abiMap, addr, content, UnsupportedMarker);
  }

  /** A second write to the same key hides the first. */
  lemma Overwrite(m: map<string, string>, k: string, v1: string, v2: string)
    ensures m[k := v1][k := v2] == m[k := v2]
  {
  }

  /** A marked address answers with the failure row and changes nothing, whatever is passed. */
  lemma UnsupportedIsTerminal<V>(t: Tables, addr: string, content: string, ms: seq<Method>, payload: string,
                                 hash: string -> Digest, getResults: (string, string) -> seq<V>, sprint: V -> string)
    requires WellFormed(t) && Covers(getResults)
    requires Get(t.abiMap, addr) == UnsupportedMarker
    ensures AbiParser(t, addr, content, ms, payload, hash, getResults, sprint) == (t, UnsupportedOutput)
  {
  }

  /** One call of the entry operation. */
  datatype Request = Request(addr: string, content: string, methods: seq<Method>, payload: string)

  predicate PayloadsLong(reqs: seq<Request>) {
    forall i :: 0 <= i < |reqs| ==> |reqs[i].payload| >= 10
  }

  /**
   * The state after a sequence of calls, the outputs in call order, and
   * whether the sequence stopped at a call whose short payload reaches the
   * selector slice (where the source panics). When it stopped, `tables` is
   * the state before that call and `outputs` holds the answers of the calls
   * before it.
   */
  datatype Trace = Trace(tables: Tables, outputs: seq<Output>, panicked: bool)

  /**
   * A sequence of calls, the state threaded through; a call that would panic
   * ends it, leaving the state as it was before that call.
   */
  function Run<V>(t: Tables, reqs: seq<Request>, hash: string -> Digest,
                  getResults: (string, string) -> seq<V>, sprint: V -> string): (res: Trace)
    requires WellFormed(t) && Covers(getResults)
    ensures WellFormed(res.tables) && |res.outputs| <= |reqs|
    ensures !res.panicked ==> |res.outputs| == |reqs|
    ensures res.panicked ==> |res.outputs| < |reqs|
    ensures PayloadsLong(reqs) ==> !res.panicked
    decreases |reqs|
  {
    if reqs == [] then Trace(t, [], false)
    else
      var q := reqs[0];
      if !ShortCircuits(t, q.addr, q.methods) && |q.payload| < 10 then Trace(t, [], true)
      else
        var (t1, out) := AbiParser(t, q.addr, q.content, q.methods, q.payload, hash, getResults, sprint);
        assert PayloadsLong(reqs) ==> PayloadsLong(reqs[1..]) by {
          if PayloadsLong(reqs) {
            forall i | 0 <= i < |reqs[1..]| ensures |reqs[1..][i].payload| >= 10 { assert reqs[1..][i] == reqs[i + 1]; }
          }
        }
        var rest := Run(t1, reqs[1..], hash, getResults, sprint);
        Trace(rest.tables, [out] + rest.outputs, rest.panicked)
  }

  /**
   * Once an address is marked unsupported it stays marked through any later
   * `AbiParser` calls, for it or any other address, whatever their payloads;
   * every call for it returns the failure row and never panics. So entries
   * written before the abort are never read through `AbiParser`.
   */
  lemma {:induction false} UnsupportedForever<V>(t: Tables, reqs: seq<Request>, a: string, hash: string -> Digest,
                                                 getResults: (string, string) -> seq<V>, sprint: V -> string)
    requires WellFormed(t) && Covers(getResults)
    requires Get(t.abiMap, a) == UnsupportedMarker
    ensures var res := Run(t, reqs, hash, getResults, sprint);
      && Get(res.tables.abiMap, a) == UnsupportedMarker
      && MarkedAnswers(reqs, a, res.outputs, res.panicked)
    decreases |reqs|
  {
    if reqs != [] {
      var q := reqs[0];
      if ShortCircuits(t, q.addr, q.methods) || |q.payload| >= 10 {
        var r1 := AbiParser(t, q.addr, q.content, q.methods, q.payload, hash, getResults, sprint);
        MarkedStep(t, q, a, hash, getResults, sprint);
        UnsupportedForever(r1.0, reqs[1..], a, hash, getResults, sprint);
        RunCons(t, reqs, hash, getResults, sprint);
        var rest := Run(r1.0, reqs[1..], hash, getResults, sprint);
        MarkedAnswersCons(reqs, a, r1.1, rest.outputs, rest.panicked);
      }
    }
  }

  /**
   * Every output answering a call for `a` is the failure row, and a
   * sequence that panicked stopped at a call for some other address.
   */
  predicate MarkedAnswers(reqs: seq<Request>, a: string, outs: seq<Output>, panicked: bool)
    requires |outs| <= |reqs| && (panicked ==> |outs| < |reqs|)
  {
    && (forall i :: 0 <= i < |outs| && reqs[i].addr == a ==> outs[i] == UnsupportedOutput)
    && (panicked ==> reqs[|outs|].addr != a)
  }

  lemma MarkedAnswersCons(reqs: seq<Request>, a: string, out: Output, outs: seq<Output>, panicked: bool)
    requires reqs != [] && |outs| <= |reqs| - 1 && (panicked ==> |outs| < |reqs| - 1)
    requires reqs[0].addr == a ==> out == UnsupportedOutput
    requires MarkedAnswers(reqs[1..], a, outs, panicked)
    ensures MarkedAnswers(reqs, a, [out] + outs, panicked)
  {
    forall i | 0 <= i < |[out] + outs| && reqs[i].addr == a ensures ([out] + outs)[i] == UnsupportedOutput {
      if i > 0 {
        assert reqs[i] == reqs[1..][i - 1];
      }
    }
    if panicked {
      assert reqs[|[out] + outs|] == reqs[1..][|outs|];
    }
  }

  /** One call keeps another address's mark, and a call for the marked address itself returns the failure row. */
  lemma MarkedStep<V>(t: Tables, q: Request, a: string, hash: string -> Digest,
                      getResults: (string, string) -> seq<V>, sprint: V -> string)
    requires WellFormed(t) && Covers(getResults)
    requires Get(t.abiMap, a) == UnsupportedMarker
    requires ShortCircuits(t, q.addr, q.methods) || |q.payload| >= 10
    ensures var r := AbiParser(t, q.addr, q.content, q.methods, q.payload, hash, getResults, sprint);
      && Get(r.0.abiMap, a) == UnsupportedMarker
      && (q.addr == a ==> r.1 == UnsupportedOutput)
  {
    if q.addr == a {
      UnsupportedIsTerminal(t, a, q.content, q.methods, q.payload, hash, getResults, sprint);
    }
  }

  /** A call that does not panic contributes its output and hands its state to the rest. */
  lemma RunCons<V>(t: Tables, reqs: seq<Request>, hash: string -> Digest,
                   getResults: (string, string) -> seq<V>, sprint: V -> string)
    requires WellFormed(t) && Covers(getResults) && reqs != []
    requires ShortCircuits(t, reqs[0].addr, reqs[0].methods) || |reqs[0].payload| >= 10
    ensures var q := reqs[0];
      var r1 := AbiParser(t, q.addr, q.content, q.methods, q.payload, hash, getResults, sprint);
      var rest := Run(r1.0, reqs[1..], hash, getResults, sprint);
      Run(t, reqs, hash, getResults, sprint) == Trace(rest.tables, [r1.1] + rest.outputs, rest.panicked)
  {
  }

  /** A registered address: the ABI text and method list are ignored and the selector tables are untouched. */
  lemma RegisteredIgnoresAbi<V>(t: Tables, addr: string, c1: string, ms1: seq<Method>, c2: string, ms2: seq<Method>,
                                payload: string, hash: string -> Digest,
                                getResults: (string, string) -> seq<V>, sprint: V -> string)
    requires WellFormed(t) && Covers(getResults) && |payload| >= 10
    requires Get(t.abiMap, addr) != "" && Get(t.abiMap, addr) != UnsupportedMarker
    ensures var res := AbiParser(t, addr, c1, ms1, payload, hash, getResults, sprint);
      && res == AbiParser(t, addr, c2, ms2, payload, hash, getResults, sprint)
      && res.0.sigs == t.sigs && res.0.names == t.names && res.0.displays == t.displays
  {
  }

  /** A decode hit on a registered address changes no state, so repeating the call repeats the result. */
  lemma DecodeHitIsRepeatable<V>(t: Tables, addr: string, content: string, ms: seq<Method>, payload: string,
                                 content': string, ms': seq<Method>, hash: string -> Digest,
                                 getResults: (string, string) -> seq<V>, sprint: V -> string)
    requires WellFormed(t) && Covers(getResults) && |payload| >= 10
    requires Get(t.abiMap, addr) != "" && Get(t.abiMap, addr) != UnsupportedMarker
    requires Get(t.sigs, (addr, payload[2..10])) != ""
    ensures var res := AbiParser(t, addr, content, ms, payload, hash, getResults, sprint);
      && res.0 == t
      && AbiParser(res.0, addr, content', ms', payload, hash, getResults, sprint) == res
  {
  }

  /**
   * `Decode` called directly, not through `AbiParser`: a miss clears the
   * address's registration whatever it held, the "Unsupported" mark included.
   */
  lemma DecodeMissClears<V>(t: Tables, addr: string, payload: string,
                            getResults: (string, string) -> seq<V>, sprint: V -> string)
    requires WellFormed(t) && Covers(getResults) && |payload| >= 10
    requires Get(t.sigs, (addr, payload[2..10])) == ""
    ensures var res := Decode(t, payload, addr, getResults, sprint);
      && res.1 == MismatchOutput && res.0 == t.(abiMap := t.abiMap[addr := ""])
      && Get(res.0.abiMap, addr) == ""
  {
  }

  /**
   * A selector with no type list: the mismatch row, no function name, and
   * only the address's registration reset; the selector tables are kept.
   */
  lemma SelectorMiss<V>(t: Tables, addr: string, content: string, ms: seq<Method>, payload: string,
                        hash: string -> Digest, getResults: (string, string) -> seq<V>, sprint: V -> string)
    requires WellFormed(t) && Covers(getResults) && |payload| >= 10
    requires Get(t.abiMap, addr) != "" && Get(t.abiMap, addr) != UnsupportedMarker
    requires Get(t.sigs, (addr, payload[2..10])) == ""
    ensures var res := AbiParser(t, addr, content, ms, payload, hash, getResults, sprint);
      && res.1 == MismatchOutput && res.1.funcName == ""
      && res.0 == t.(abiMap := t.abiMap[addr := ""])
  {
  }

  /**
   * Selectors are matched case-sensitively against lowercase hex: a payload
   * whose selector has any other character always misses.
   */
  lemma NonLowercaseSelectorMisses<V>(t: Tables, addr: string, payload: string, j: nat, hash: string -> Digest,
                                      getResults: (string, string) -> seq<V>, sprint: V -> string)
    requires Consistent(t, hash) && Covers(getResults) && |payload| >= 10
    requires 2 <= j < 10 && !Hex.IsLowerHexDigit(payload[j])
    ensures Decode(t, payload, addr, getResults, sprint).1 == MismatchOutput
  {
    var key := (addr, payload[2..10]);
    StoredSelectorsLowercase(t, hash, key);
    assert !Hex.IsLowerHexDigit(key.1[j - 2]);
  }

  /** Every stored selector is eight lowercase hex digits. */
  lemma StoredSelectorsLowercase(t: Tables, hash: string -> Digest, key: Key)
    requires Consistent(t, hash)
    ensures key in t.sigs ==> |key.1| == 8 && forall i :: 0 <= i < 8 ==> Hex.IsLowerHexDigit(key.1[i])
  {
    if key in t.sigs {
      assert Selector(hash, t.displays[key]) == key.1;
    }
  }

  /** Pairs names with stringified values, up to the shorter of the two. */
  function Zip<V>(names: seq<string>, values: seq<V>, sprint: V -> string): (rows: seq<Row>)
    ensures |rows| == if |names| <= |values| then |names| else |values|
    ensures forall i :: 0 <= i < |rows| ==> rows[i] == Row(names[i], sprint(values[i]))
  {
    var n := if |names| <= |values| then |names| else |values|;
    seq(n, i requires 0 <= i < n => Row(names[i], sprint(values[i])))
  }

  /** A decode hit on the entry of method `m` gives its rows and display name and changes nothing. */
  lemma DecodeEntry<V>(t: Tables, addr: string, m: Method, sel: string, payload: string,
                       getResults: (string, string) -> seq<V>, sprint: V -> string)
    requires WellFormed(t) && Covers(getResults) && |payload| >= 10 && payload[2..10] == sel
    requires InputsSupported(m) && |m.inputs| >= 1
    requires forall i :: 0 <= i < |m.inputs| ==> ',' !in m.inputs[i].name
    requires Get(t.sigs, (addr, sel)) == Join(TypesOf(m.inputs), ',')
    requires Get(t.names, (addr, sel)) == Join(NamesOf(m.inputs), ',')
    requires Get(t.displays, (addr, sel)) == Signature(m)
    ensures var res := Decode(t, payload, addr, getResults, sprint);
      && res.0 == t
      && res.1 == Output(Zip(NamesOf(m.inputs), getResults(Join(TypesOf(m.inputs), ','), payload[10..]), sprint), Signature(m))
  {
    var sig := Join(TypesOf(m.inputs), ',');
    StoredTypesSplit(m);
    SplitJoin(NamesOf(m.inputs), ',');
    var values := getResults(sig, payload[10..]);
    assert |values| >= |m.inputs|;
  }

  /**
   * End to end: an unregistered address, an ABI whose non-constant methods
   * are all supported, and a payload `pre + selector + args` for a method
   * `m` with inputs. The result has one row per input, in declared order,
   * pairing its name with the stringified decoded value, and the function
   * name `name(types)`; the ABI text passed is stored as the address's
   * registration.
   */
  lemma RegisterThenDecode<V>(t: Tables, addr: string, content: string, ms: seq<Method>, m: Method,
                              pre: string, args: string, hash: string -> Digest,
                              getResults: (string, string) -> seq<V>, sprint: V -> string)
    requires WellFormed(t) && Covers(getResults)
    requires Get(t.abiMap, addr) == "" && AllSupported(ms)
    requires m in ms && !m.isConst && |m.inputs| >= 1 && OnlyMethodWith(ms, m, hash)
    requires forall i :: 0 <= i < |m.inputs| ==> ',' !in m.inputs[i].name
    requires |pre| == 2
    ensures var payload := pre + Selector(hash, Signature(m)) + args;
      var res := AbiParser(t, addr, content, ms, payload, hash, getResults, sprint);
      && res.1.funcName == Signature(m)
      && |res.1.rows| == |m.inputs|
      && res.1.rows == Zip(NamesOf(m.inputs), getResults(Join(TypesOf(m.inputs), ','), args), sprint)
      && Get(res.0.abiMap, addr) == content
  {
    var sel := Selector(hash, Signature(m));
    var payload := pre + sel + args;
    assert payload[2..10] == sel && payload[10..] == args;
    var t0 := t.(abiMap := t.abiMap[addr := content]);
    RegisterEntry(t0, addr, ms, m, hash);
    assert InputsSupported(m);
    var r := Register(t0, addr, ms, hash).0;
    DecodeEntry(r, addr, m, sel, payload, getResults, sprint);
    assert |getResults(Join(TypesOf(m.inputs), ','), args)| >= |m.inputs| by {
      StoredTypesSplit(m);
    }
  }

  /** A method without inputs stores an empty type list, so a call to it is always a mismatch. */
  lemma ZeroInputMethodMismatches<V>(t: Tables, addr: string, content: string, ms: seq<Method>, m: Method,
                                     pre: string, args: string, hash: string -> Digest,
                                     getResults: (string, string) -> seq<V>, sprint: V -> string)
    requires WellFormed(t) && Covers(getResults)
    requires Get(t.abiMap, addr) == "" && AllSupported(ms)
    requires m in ms && !m.isConst && |m.inputs| == 0 && OnlyMethodWith(ms, m, hash)
    requires |pre| == 2
    ensures var payload := pre + Selector(hash, Signature(m)) + args;
      var res := AbiParser(t, addr, content, ms, payload, hash, getResults, sprint);
      && res.1 == MismatchOutput
      && Get(res.0.abiMap, addr) == ""
  {
    var sel := Selector(hash, Signature(m));
    var payload := pre + sel + args;
    assert payload[2..10] == sel;
    var t0 := t.(abiMap := t.abiMap[addr := content]);
    RegisterEntry(t0, addr, ms, m, hash);
  }

  /** An empty ABI text leaves the address unregistered even when decoding succeeds. */
  lemma EmptyContentStaysUnregistered<V>(t: Tables, addr: string, ms: seq<Method>, payload: string,
                                         hash: string -> Digest, getResults: (string, string) -> seq<V>,
                                         sprint: V -> string)
    requires WellFormed(t) && Covers(getResults) && |payload| >= 10
    requires Get(t.abiMap, addr) == "" && AllSupported(ms)
    ensures Get(AbiParser(t, addr, "", ms, payload, hash, getResults, sprint).0.abiMap, addr) == ""
  {
  }

  /**
   * After a mismatch on a registered address, a later call with a corrected
   * ABI stores the ABI text passed as the address's registration and decodes
   * the payload.
   */
  lemma MismatchThenReregister<V>(t: Tables, addr: string, content: string, ms: seq<Method>, stale: string,
                                  content': string, ms': seq<Method>, m: Method, pre: string, args: string,
                                  hash: string -> Digest, getResults: (string, string) -> seq<V>,
                                  sprint: V -> string)
    requires WellFormed(t) && Covers(getResults) && |stale| >= 10
    requires Get(t.abiMap, addr) != "" && Get(t.abiMap, addr) != UnsupportedMarker
    requires Get(t.sigs, (addr, stale[2..10])) == ""
    requires AllSupported(ms') && m in ms' && !m.isConst && |m.inputs| >= 1 && OnlyMethodWith(ms', m, hash)
    requires forall i :: 0 <= i < |m.inputs| ==> ',' !in m.inputs[i].name
    requires |pre| == 2
    ensures var t1 := AbiParser(t, addr, content, ms, stale, hash, getResults, sprint).0;
      var res := AbiParser(t1, addr, content', ms', pre + Selector(hash, Signature(m)) + args, hash, getResults, sprint);
      && res.1.funcName == Signature(m)
      && res.1.rows == Zip(NamesOf(m.inputs), getResults(Join(TypesOf(m.inputs), ','), args), sprint)
      && Get(res.0.abiMap, addr) == content'
  {
    SelectorMiss(t, addr, content, ms, stale, hash, getResults, sprint);
    var t1 := AbiParser(t, addr, content, ms, stale, hash, getResults, sprint).0;
    RegisterThenDecode(t1, addr, content', ms', m, pre, args, hash, getResults, sprint);
  }
}
