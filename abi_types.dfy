/**
 * The supported-type check: a declared parameter type is decodable when at
 * least one of eight anchored patterns matches it. The patterns are
 * recognised by hand-written predicates (`Matches`); `PatternSpec` states the
 * language of each pattern declaratively, and `MatchesIffSpec` connects the two.
 */
module AbiTypes {

  /** The eight patterns, in the order the source lists them. */
  datatype Pattern =
    | IntOrAddress            // (u?int[0-9]{0,3}|address)
    | Bool                    // bool
    | IntOrAddressFixedArray  // (u?int[0-9]{0,3}|address)[N], N at least one digit
    | Bytes                   // bytes
    | IntOrAddressDynArray    // (u?int[0-9]{0,3}|address)[]
    | String                  // string
    | Bytes32DynArray         // bytes32[]
    | Bytes32FixedArray       // bytes32[N], N at least one digit

  const SupportedDatatypes: seq<Pattern> := [
    IntOrAddress, Bool, IntOrAddressFixedArray, Bytes,
    IntOrAddressDynArray, String, Bytes32DynArray, Bytes32FixedArray]

  predicate IsDigit(c: char) { '0' <= c <= '9' }

  predicate IsDigits(s: string) {
    forall i :: 0 <= i < |s| ==> IsDigit(s[i])
  }

  // ---------------------------------------------------------------------
  // The recogniser
  // ---------------------------------------------------------------------

  /** `int` or `uint` with a 0-3 digit width, or `address`. */
  predicate IsIntOrAddress(s: string) {
    || s == "address"
    || (4 <= |s| <= 7 && s[..4] == "uint" && IsDigits(s[4..]))
    || (3 <= |s| <= 6 && s[..3] == "int" && IsDigits(s[3..]))
  }

  /** `[` followed by at least one digit and `]`. */
  predicate IsFixedSuffix(x: string) {
    |x| >= 3 && x[0] == '[' && x[|x| - 1] == ']' && IsDigits(x[1..|x| - 1])
  }

  /** The position of the first `[`, or the length when there is none. */
  function BracketAt(t: string): (k: nat)
    ensures k <= |t|
    ensures k < |t| ==> t[k] == '['
    ensures forall j :: 0 <= j < k ==> t[j] != '['
    decreases |t|
  {
    if t == [] then 0 else if t[0] == '[' then 0 else 1 + BracketAt(t[1..])
  }

  /** Whether one pattern matches the whole of `t`. */
  predicate Matches(p: Pattern, t: string) {
    var k := BracketAt(t);
    var base, suffix := t[..k], t[k..];
    match p
    case IntOrAddress => IsIntOrAddress(t)
    case Bool => t == "bool"
    case IntOrAddressFixedArray => IsIntOrAddress(base) && IsFixedSuffix(suffix)
    case Bytes => t == "bytes"
    case IntOrAddressDynArray => IsIntOrAddress(base) && suffix == "[]"
    case String => t == "string"
    case Bytes32DynArray => t == "bytes32[]"
    case Bytes32FixedArray => base == "bytes32" && IsFixedSuffix(suffix)
  }

  /** A type is supported when some pattern of the list matches it. */
  predicate IsSupported(t: string) {
    exists i :: 0 <= i < |SupportedDatatypes| && Matches(SupportedDatatypes[i], t)
  }

  // ---------------------------------------------------------------------
  // The patterns stated as languages
  // ---------------------------------------------------------------------

  function IntType(unsigned: bool, width: string): string {
    (if unsigned then "uint" else "int") + width
  }

  function ArrayType(elem: string, length: string): string {
    elem + "[" + length + "]"
  }

  ghost predicate IntOrAddressSpec(s: string) {
    || s == "address"
    || exists u: bool, w: string :: |w| <= 3 && IsDigits(w) && s == IntType(u, w)
  }

  ghost predicate PatternSpec(p: Pattern, t: string) {
    match p
    case IntOrAddress => IntOrAddressSpec(t)
    case Bool => t == "bool"
    case IntOrAddressFixedArray =>
      exists e, n :: t == ArrayType(e, n) && IntOrAddressSpec(e) && |n| >= 1 && IsDigits(n)
    case Bytes => t == "bytes"
    case IntOrAddressDynArray => exists e :: t == ArrayType(e, "") && IntOrAddressSpec(e)
    case String => t == "string"
    case Bytes32DynArray => t == ArrayType("bytes32", "")
    case Bytes32FixedArray => exists n :: t == ArrayType("bytes32", n) && |n| >= 1 && IsDigits(n)
  }

  // ---------------------------------------------------------------------
  // Recogniser and languages agree
  // ---------------------------------------------------------------------

  lemma IntOrAddressIffSpec(s: string)
    ensures IsIntOrAddress(s) <==> IntOrAddressSpec(s)
  {
    if IsIntOrAddress(s) && s != "address" {
      if 4 <= |s| && s[..4] == "uint" {
        assert s == IntType(true, s[4..]);
      } else {
        assert s == IntType(false, s[3..]);
      }
    }
    if IntOrAddressSpec(s) && s != "address" {
      var u: bool, w: string :| |w| <= 3 && IsDigits(w) && s == IntType(u, w);
      if u {
        assert s[..4] == "uint" && s[4..] == w;
      } else {
        assert s[..3] == "int" && s[3..] == w;
      }
    }
  }

  /** Letters and digits only: an integer-family type has no bracket and no comma. */
  lemma IntOrAddressPlain(s: string)
    requires IsIntOrAddress(s)
    ensures forall j :: 0 <= j < |s| ==> s[j] != '[' && s[j] != ','
  {
    if s != "address" {
      var p := if |s| >= 4 && s[..4] == "uint" then 4 else 3;
      forall j | 0 <= j < |s| ensures s[j] != '[' && s[j] != ',' {
        if j >= p { assert s[j] == s[p..][j - p]; } else { assert s[j] == s[..p][j]; }
      }
    }
  }

  /** In `e[n]` with a bracket-free `e`, the first bracket is right after `e`. */
  lemma BracketAtArray(e: string, n: string)
    requires forall j :: 0 <= j < |e| ==> e[j] != '['
    ensures var t := ArrayType(e, n); BracketAt(t) == |e| && t[..|e|] == e && t[|e|..] == "[" + n + "]"
  {
    var t := ArrayType(e, n);
    assert t[|e|] == '[';
    assert forall j :: 0 <= j < |e| ==> t[j] == e[j];
    assert t[..|e|] == e;
    assert t[|e|..] == "[" + n + "]";
  }

  /** A fixed suffix is `[N]` for its digits N. */
  lemma FixedSuffixIffSpec(x: string)
    ensures IsFixedSuffix(x) <==> exists n :: x == "[" + n + "]" && |n| >= 1 && IsDigits(n)
  {
    if IsFixedSuffix(x) {
      var n := x[1..|x| - 1];
      assert x == "[" + n + "]";
    }
    if n :| x == "[" + n + "]" && |n| >= 1 && IsDigits(n) {
      assert x[1..|x| - 1] == n;
    }
  }

  /** The split at the first bracket reassembles the type. */
  lemma SplitAtBracket(t: string)
    ensures t == t[..BracketAt(t)] + t[BracketAt(t)..]
  {
  }

  /** The base and suffix of a type whose first bracket ends the base. */
  lemma ArrayParts(t: string, e: string, n: string)
    requires t == ArrayType(e, n) && forall j :: 0 <= j < |e| ==> e[j] != '['
    ensures t[..BracketAt(t)] == e && t[BracketAt(t)..] == "[" + n + "]"
  {
    BracketAtArray(e, n);
  }

  /** A type split at its first bracket into `e` and a fixed suffix is `e[n]` for some digits `n`. */
  lemma FixedArrayOf(t: string) returns (n: string)
    requires IsFixedSuffix(t[BracketAt(t)..])
    ensures t == ArrayType(t[..BracketAt(t)], n) && |n| >= 1 && IsDigits(n)
  {
    var suffix := t[BracketAt(t)..];
    FixedSuffixIffSpec(suffix);
    n :| suffix == "[" + n + "]" && |n| >= 1 && IsDigits(n);
    SplitAtBracket(t);
  }

  lemma FixedArrayIffSpec(t: string)
    ensures Matches(IntOrAddressFixedArray, t) <==> PatternSpec(IntOrAddressFixedArray, t)
  {
    var base := t[..BracketAt(t)];
    if Matches(IntOrAddressFixedArray, t) {
      IntOrAddressIffSpec(base);
      var n := FixedArrayOf(t);
    }
    if PatternSpec(IntOrAddressFixedArray, t) {
      var e, n :| t == ArrayType(e, n) && IntOrAddressSpec(e) && |n| >= 1 && IsDigits(n);
      IntOrAddressIffSpec(e);
      IntOrAddressPlain(e);
      ArrayParts(t, e, n);
      FixedSuffixIffSpec("[" + n + "]");
    }
  }

  lemma DynArrayIffSpec(t: string)
    ensures Matches(IntOrAddressDynArray, t) <==> PatternSpec(IntOrAddressDynArray, t)
  {
    var base := t[..BracketAt(t)];
    if Matches(IntOrAddressDynArray, t) {
      IntOrAddressIffSpec(base);
      SplitAtBracket(t);
      assert t == ArrayType(base, "");
    }
    if PatternSpec(IntOrAddressDynArray, t) {
      var e :| t == ArrayType(e, "") && IntOrAddressSpec(e);
      IntOrAddressIffSpec(e);
      IntOrAddressPlain(e);
      ArrayParts(t, e, "");
    }
  }

  lemma Bytes32IsPlain()
    ensures forall j :: 0 <= j < |"bytes32"| ==> "bytes32"[j] != '['
  {
  }

  lemma Bytes32FixedArrayIfSpec(t: string, n: string)
    requires t == ArrayType("bytes32", n) && |n| >= 1 && IsDigits(n)
    ensures Matches(Bytes32FixedArray, t)
  {
    Bytes32IsPlain();
    ArrayParts(t, "bytes32", n);
    FixedSuffixIffSpec("[" + n + "]");
  }

  lemma Bytes32FixedArrayIffSpec(t: string)
    ensures Matches(Bytes32FixedArray, t) <==> PatternSpec(Bytes32FixedArray, t)
  {
    if Matches(Bytes32FixedArray, t) {
      var n := FixedArrayOf(t);
    }
    if PatternSpec(Bytes32FixedArray, t) {
      var n :| t == ArrayType("bytes32", n) && |n| >= 1 && IsDigits(n);
      Bytes32FixedArrayIfSpec(t, n);
    }
  }

  /** Each hand-written recogniser accepts exactly its pattern's language. */
  lemma MatchesIffSpec(p: Pattern, t: string)
    ensures Matches(p, t) <==> PatternSpec(p, t)
  {
    match p
    case IntOrAddress => IntOrAddressIffSpec(t);
    case IntOrAddressFixedArray => FixedArrayIffSpec(t);
    case IntOrAddressDynArray => DynArrayIffSpec(t);
    case Bytes32FixedArray => Bytes32FixedArrayIffSpec(t);
    case _ =>
  }

  /** Supported exactly when the type is in the language of some pattern. */
  lemma SupportedIffSpec(t: string)
    ensures IsSupported(t) <==> exists i :: 0 <= i < |SupportedDatatypes| && PatternSpec(SupportedDatatypes[i], t)
  {
    forall i | 0 <= i < |SupportedDatatypes| {
      MatchesIffSpec(SupportedDatatypes[i], t);
    }
  }

  lemma FixedSuffixHasNoComma(x: string)
    requires IsFixedSuffix(x)
    ensures forall j :: 0 <= j < |x| ==> x[j] != ','
  {
    forall j | 0 < j < |x| - 1 ensures x[j] != ',' {
      assert x[j] == x[1..|x| - 1][j - 1];
    }
  }

  lemma ArrayHasNoComma(t: string)
    requires IsFixedSuffix(t[BracketAt(t)..]) || t[BracketAt(t)..] == "[]"
    requires IsIntOrAddress(t[..BracketAt(t)]) || t[..BracketAt(t)] == "bytes32"
    ensures ',' !in t
  {
    var k := BracketAt(t);
    var base, suffix := t[..k], t[k..];
    if IsIntOrAddress(base) { IntOrAddressPlain(base); }
    if IsFixedSuffix(suffix) { FixedSuffixHasNoComma(suffix); }
    assert forall j :: 0 <= j < k ==> t[j] == base[j];
    assert forall j :: k <= j < |t| ==> t[j] == suffix[j - k];
  }

  lemma MatchHasNoComma(p: Pattern, t: string)
    requires Matches(p, t)
    ensures ',' !in t
  {
    match p
    case IntOrAddress => IntOrAddressPlain(t);
    case IntOrAddressFixedArray => ArrayHasNoComma(t);
    case IntOrAddressDynArray => ArrayHasNoComma(t);
    case Bytes32FixedArray => ArrayHasNoComma(t);
    case _ =>
  }

  /** A supported type never contains a comma, so comma-joined type lists split back. */
  lemma SupportedHasNoComma(t: string)
    requires IsSupported(t)
    ensures ',' !in t
  {
    var i :| 0 <= i < |SupportedDatatypes| && Matches(SupportedDatatypes[i], t);
    MatchHasNoComma(SupportedDatatypes[i], t);
  }

  /** Scalar types the source accepts, including a three-digit width of no meaning. */
  lemma AcceptedScalars()
    ensures IsSupported("uint256") && IsSupported("int") && IsSupported("uint999") && IsSupported("address")
    ensures IsSupported("bool") && IsSupported("bytes") && IsSupported("string")
  {
    assert Matches(SupportedDatatypes[0], "uint256");
    assert Matches(SupportedDatatypes[0], "int");
    assert Matches(SupportedDatatypes[0], "uint999");
    assert Matches(SupportedDatatypes[0], "address");
    assert Matches(SupportedDatatypes[1], "bool");
    assert Matches(SupportedDatatypes[3], "bytes");
    assert Matches(SupportedDatatypes[5], "string");
  }

  /** Array types the source accepts, including a zero length. */
  lemma AcceptedUintDynArray() ensures IsSupported("uint8[]")
  {
    assert IsIntOrAddress("uint8") by { assert "uint8"[..4] == "uint" && IsDigit("uint8"[4..][0]); }
    AcceptedArray(IntOrAddressDynArray, "uint8", "");
    assert ArrayType("uint8", "") == "uint8[]";
  }

  lemma AcceptedAddressArray() ensures IsSupported("address[3]")
  {
    assert IsDigit("3"[0]);
    AcceptedArray(IntOrAddressFixedArray, "address", "3");
    assert ArrayType("address", "3") == "address[3]";
  }

  lemma AcceptedZeroLengthArray() ensures IsSupported("int16[0]")
  {
    assert IsIntOrAddress("int16") by { assert "int16"[..3] == "int" && "int16"[3..] == "16"; }
    assert IsDigits("0") by { assert IsDigit("0"[0]); }
    AcceptedArray(IntOrAddressFixedArray, "int16", "0");
    assert ArrayType("int16", "0") == "int16[0]";
  }

  lemma AcceptedBytes32Arrays() ensures IsSupported("bytes32[]") && IsSupported("bytes32[12]")
  {
    assert Matches(SupportedDatatypes[6], "bytes32[]");
    assert IsDigits("12") by { assert IsDigit("12"[0]) && IsDigit("12"[1]); }
    AcceptedArray(Bytes32FixedArray, "bytes32", "12");
    assert ArrayType("bytes32", "12") == "bytes32[12]";
  }

  lemma AcceptedArray(p: Pattern, e: string, n: string)
    requires p == IntOrAddressDynArray ==> IsIntOrAddress(e) && n == ""
    requires p == IntOrAddressFixedArray ==> IsIntOrAddress(e) && |n| >= 1 && IsDigits(n)
    requires p == Bytes32FixedArray ==> e == "bytes32" && |n| >= 1 && IsDigits(n)
    requires p in {IntOrAddressDynArray, IntOrAddressFixedArray, Bytes32FixedArray}
    ensures IsSupported(ArrayType(e, n))
  {
    if e != "bytes32" { IntOrAddressPlain(e); }
    BracketAtArray(e, n);
    MatchesIffSpec(p, ArrayType(e, n));
    if p == IntOrAddressDynArray {
      IntOrAddressIffSpec(e);
      assert Matches(SupportedDatatypes[4], ArrayType(e, n));
    } else if p == IntOrAddressFixedArray {
      IntOrAddressIffSpec(e);
      assert Matches(SupportedDatatypes[2], ArrayType(e, n));
    } else {
      assert Matches(SupportedDatatypes[7], ArrayType(e, n));
    }
  }

  /** Without a bracket only the five scalar patterns can match. */
  lemma BracketFreeSupported(t: string)
    requires forall j :: 0 <= j < |t| ==> t[j] != '['
    ensures IsSupported(t) <==> IsIntOrAddress(t) || t == "bool" || t == "bytes" || t == "string"
  {
    assert BracketAt(t) == |t|;
    assert t[BracketAt(t)..] == "";
    assert "bytes32[]"[7] == '[';
    if IsIntOrAddress(t) {
      assert Matches(SupportedDatatypes[0], t);
    } else if t == "bool" {
      assert Matches(SupportedDatatypes[1], t);
    } else if t == "bytes" {
      assert Matches(SupportedDatatypes[3], t);
    } else if t == "string" {
      assert Matches(SupportedDatatypes[5], t);
    }
  }

  lemma RejectedTuple() ensures !IsSupported("tuple")
  {
    BracketFreeSupported("tuple");
    assert "tuple"[0] == 't';
  }

  lemma RejectedFixed() ensures !IsSupported("fixed128x18")
  {
    BracketFreeSupported("fixed128x18");
    assert "fixed128x18"[0] == 'f';
  }

  /** bytes4 and the scalar bytes32 are rejected: no pattern covers a scalar bytesN. */
  lemma RejectedBytes4() ensures !IsSupported("bytes4")
  {
    BracketFreeSupported("bytes4");
    assert "bytes4"[0] == 'b' && |"bytes4"| == 6;
  }

  lemma RejectedBytes32() ensures !IsSupported("bytes32")
  {
    BracketFreeSupported("bytes32");
    assert "bytes32"[0] == 'b' && |"bytes32"| == 7;
  }

  /** A four-digit width is one digit too many. */
  lemma RejectedWideInt() ensures !IsSupported("uint1234")
  {
    BracketFreeSupported("uint1234");
    assert "uint1234"[0] == 'u' && |"uint1234"| == 8;
  }

  /** Matching is case-sensitive, and the empty type is rejected. */
  lemma RejectedUpperAndEmpty() ensures !IsSupported("UINT256") && !IsSupported("")
  {
    BracketFreeSupported("UINT256");
    assert "UINT256"[0] == 'U';
    BracketFreeSupported("");
  }
}
