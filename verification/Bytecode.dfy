/** reth's compact bytecode: the analysis that finds jump destinations and pads the code so that running off
its end meets a STOP, and the wire form. */
module Bytecode {
  import opened Wrappers
  import opened Stems
  import opened Groups
  import opened NodeCodec
  import opened Arithmetic
  import opened Endian

  const STOP: Byte := 0x00
  const JUMPDEST: Byte := 0x5B
  const PUSH1: Byte := 0x60
  const DUPN: Byte := 0xE6
  const SWAPN: Byte := 0xE7
  const EXCHANGE: Byte := 0xE8
  const LEGACY_ANALYZED: Byte := 2
  const EIP7702: Byte := 4

  type Code = seq<Byte>

  /** Bytes of an instruction: opcode and immediate data. */
  function Width(op: Byte): nat {
    if 0x60 <= op <= 0x7F then op - 0x5E else 1
  }

  predicate TakesByte(op: Byte) { op == DUPN || op == SWAPN || op == EXCHANGE }

  predicate IsDesignator(code: Code) {
    |code| == 23 && code[0] == 0xEF && code[1] == 0x01 && code[2] == 0x00
  }

  // ----- instruction starts

  /** Position p is where an instruction begins, or where the walk over the code leaves it. */
  ghost predicate Starts(code: Code, p: nat)
    decreases p
  {
    p == 0 || exists q: nat :: q < p && q < |code| && Starts(code, q) && q + Width(code[q]) == p
  }

  lemma {:induction false} FirstStart(code: Code)
    ensures Starts(code, 0)
  {
  }

  /** Instructions do not overlap. */
  lemma {:induction false} StartsApart(code: Code, p: nat, q: nat)
    requires p < q && p < |code| && Starts(code, p) && Starts(code, q)
    ensures p + Width(code[p]) <= q
    decreases q
  {
    var r: nat :| r < q && r < |code| && Starts(code, r) && r + Width(code[r]) == q;
    if p < r {
      StartsApart(code, p, r);
    } else if r < p {
      StartsApart(code, r, p);
    }
  }

  /** The next start is behind the immediate data. */
  lemma {:induction false} NextStart(code: Code, i: nat)
    requires i < |code| && Starts(code, i)
    ensures Starts(code, i + Width(code[i]))
    ensures forall p: nat :: i < p < i + Width(code[i]) ==> !Starts(code, p)
  {
    forall p: nat | i < p < i + Width(code[i]) ensures !Starts(code, p) {
      if Starts(code, p) { StartsApart(code, i, p); }
    }
  }

  /** Bytes behind the code do not change its instructions. */
  lemma {:induction false} StartsExtended(code: Code, tail: Code, p: nat)
    ensures Starts(code, p) ==> Starts(code + tail, p)
    ensures p <= |code| ==> (Starts(code + tail, p) <==> Starts(code, p))
    decreases p
  {
    if p > 0 {
      if Starts(code, p) {
        var q: nat :| q < p && q < |code| && Starts(code, q) && q + Width(code[q]) == p;
        StartsExtended(code, tail, q);
        assert (code + tail)[q] == code[q];
      }
      if p <= |code| && Starts(code + tail, p) {
        var q: nat :| q < p && q < |code + tail| && Starts(code + tail, q) && q + Width((code + tail)[q]) == p;
        StartsExtended(code, tail, q);
        assert (code + tail)[q] == code[q];
      }
    }
  }

  /** In a run of STOPs every position is a start. */
  lemma {:induction false} StopsStart(code: Code, i: nat, j: nat)
    requires i <= j <= |code| && Starts(code, i)
    requires forall k :: i <= k < |code| ==> code[k] == STOP
    ensures Starts(code, j)
    decreases j
  {
    if i < j {
      StopsStart(code, i, j - 1);
      assert j - 1 + Width(code[j - 1]) == j;
    }
  }

  /** p is a jump destination: the opcode of an instruction, not immediate data. */
  ghost predicate IsJump(code: Code, p: nat) {
    p < |code| && Starts(code, p) && code[p] == 0x5B
  }

  /** Walking the code ends exactly at its end, with a STOP. */
  ghost predicate EndsInStop(code: Code) {
    && Starts(code, |code|)
    && code != [] && Starts(code, |code| - 1) && code[|code| - 1] == 0
  }

  // ----- the analysis

  /** last is the start of the last instruction, which ends at i. */
  ghost predicate LastInstruction(code: Code, last: nat, i: nat, op: Byte) {
    last < |code| <= i && Starts(code, last) && code[last] == op && last + Width(op) == i
  }

  /** op is the opcode of the instruction that ends at last, or STOP if there is none. */
  ghost predicate InstructionBefore(code: Code, last: nat, op: Byte) {
    if last == 0 then op == STOP
    else exists q: nat :: q < last && q < |code| && Starts(code, q) && code[q] == op && q + Width(op) == last
  }

  /** Running off the end of the code is safe: the walk ends in a STOP, also behind a last instruction
  that takes an immediate byte. */
  ghost predicate Safe(code: Code, padded: Code) {
    && EndsInStop(padded)
    && forall p: nat :: p < |code| && Starts(code, p) && 0xE6 <= code[p] <= 0xE8 ==> p + 2 < |padded|
  }

  /** One pass over the instructions: marks jump destinations and remembers the last two opcodes. */
  method Scan(code: Code) returns (jumps: array<bool>, i: nat, lastOp: Byte, prevOp: Byte, ghost last: nat)
    ensures fresh(jumps) && jumps.Length == |code|
    ensures forall p: nat :: p < |code| ==> (jumps[p] <==> IsJump(code, p))
    ensures i >= |code| && Starts(code, i)
    ensures code == [] ==> i == 0 && lastOp == STOP && prevOp == STOP
    ensures code != [] ==> LastInstruction(code, last, i, lastOp) && InstructionBefore(code, last, prevOp)
  {
    hide Starts;
    FirstStart(code);
    jumps := new bool[|code|](_ => false);
    i, lastOp, prevOp, last := 0, STOP, STOP, 0;
    while i < |code|
      invariant Starts(code, i)
      invariant forall p: nat :: p < |code| ==> (jumps[p] <==> p < i && IsJump(code, p))
      invariant i == 0 ==> lastOp == STOP && prevOp == STOP
      invariant i > 0 ==> last < |code| && Starts(code, last) && code[last] == lastOp && last + Width(lastOp) == i
      invariant i > 0 ==> InstructionBefore(code, last, prevOp)
      decreases |code| - i
    {
      prevOp := lastOp;
      lastOp := code[i];
      last := i;
      if lastOp == JUMPDEST { jumps[i] := true; }
      NextStart(code, i);
      if lastOp == JUMPDEST {
        i := i + 1;
      } else {
        var pushOffset := lastOp as int - PUSH1 as int;
        if 0 <= pushOffset < 32 { i := i + (pushOffset + 2); } else { i := i + 1; }
      }
    }
  }

  function Extra(lastOp: Byte, prevOp: Byte): nat {
    if lastOp == STOP then (if TakesByte(prevOp) then 1 else 0)
    else if TakesByte(lastOp) then 2 else 1
  }

  function Zeros(n: nat): (z: Code) { seq(n, _ => STOP) }

  /** The padded code is safe, and the padding is short. */
  lemma {:induction false} PaddedIsSafe(code: Code, last: nat, i: nat, lastOp: Byte, prevOp: Byte)
    requires LastInstruction(code, last, i, lastOp) && Starts(code, i) && InstructionBefore(code, last, prevOp)
    ensures Safe(code, code + Zeros(i - |code| + Extra(lastOp, prevOp)))
    ensures i - |code| + Extra(lastOp, prevOp) <= 33
  {
    hide Starts, EndsInStop;
    PaddedEnds(code, last, i, lastOp, prevOp);
    var n := i + Extra(lastOp, prevOp);
    forall p: nat | p < |code| && Starts(code, p) && TakesByte(code[p]) ensures p + 2 < n {
      if p < last {
        StartsApart(code, p, last);
        if p + 1 == last { EndsAt(code, p, last, prevOp); }
      } else if last < p {
        StartsApart(code, last, p);
      }
    }
  }

  /** The instruction that ends at last is the only one that does. */
  lemma {:induction false} EndsAt(code: Code, p: nat, last: nat, op: Byte)
    requires p < |code| && Starts(code, p) && p + 1 == last && InstructionBefore(code, last, op)
    ensures op == code[p]
  {
    var q: nat :| q < last && q < |code| && Starts(code, q) && code[q] == op && q + Width(op) == last;
    if q < p { StartsApart(code, q, p); }
  }

  lemma {:induction false} PaddedEnds(code: Code, last: nat, i: nat, lastOp: Byte, prevOp: Byte)
    requires LastInstruction(code, last, i, lastOp) && Starts(code, i)
    ensures EndsInStop(code + Zeros(i - |code| + Extra(lastOp, prevOp)))
    ensures i - |code| + Extra(lastOp, prevOp) <= 33
  {
    hide Starts;
    var z := Zeros(i - |code| + Extra(lastOp, prevOp));
    var padded := code + z;
    StartsExtended(code, z, i);
    StartsExtended(code, z, last);
    forall k | i <= k < |padded| ensures padded[k] == STOP {}
    StopsStart(padded, i, |padded|);
    if Extra(lastOp, prevOp) > 0 {
      StopsStart(padded, i, |padded| - 1);
    } else {
      assert last == |code| - 1 == |padded| - 1;
    }
  }

  /** No shorter padding is safe. */
  lemma {:induction false} PaddingIsLeast(code: Code, last: nat, i: nat, lastOp: Byte, prevOp: Byte, m: nat)
    requires LastInstruction(code, last, i, lastOp) && InstructionBefore(code, last, prevOp)
    requires Safe(code, code + Zeros(m))
    ensures i - |code| + Extra(lastOp, prevOp) <= m
  {
    hide Starts;
    var z := Zeros(m);
    var padded := code + z;
    var n := |padded|;
    StartsExtended(code, z, last);
    assert padded[last] == lastOp;
    StartsApart(padded, last, n);
    assert i <= n;
    if lastOp != STOP {
      if last < n - 1 { StartsApart(padded, last, n - 1); }
      assert i < n;
      assert TakesByte(lastOp) ==> last + 2 < n;
    } else if TakesByte(prevOp) {
      var q: nat :| q < last && q < |code| && Starts(code, q) && code[q] == prevOp && q + Width(prevOp) == last;
      assert q + 2 < n;
    }
  }

  /** Padding neither adds nor hides jump destinations. */
  lemma {:induction false} PaddingKeepsJumps(code: Code, n: nat, p: nat)
    ensures IsJump(code + Zeros(n), p) <==> IsJump(code, p)
  {
    if p < |code| { StartsExtended(code, Zeros(n), p); }
  }

  // ----- the jump table

  /** Bit pos, counted from the least significant bit of each byte. */
  predicate LowBit(table: seq<Byte>, pos: nat)
    requires pos < 8 * |table|
  {
    BitOf(table[pos / 8], 7 - pos % 8)
  }

  lemma {:induction false} LowBitIs(table: seq<Byte>, pos: nat)
    requires pos < 8 * |table|
    ensures LowBit(table, pos) <==> table[pos / 8] / Pow2(pos % 8) % 2 == 1
  {
    hide BitOf;
    BitOfIs(table[pos / 8], 7 - pos % 8);
    assert 7 - (7 - pos % 8) == pos % 8;
  }

  /** One bit for each byte of the code, least significant first in each byte of the table. */
  method JumpTable(jumps: array<bool>) returns (table: array<Byte>)
    ensures fresh(table) && table.Length == (jumps.Length + 7) / 8
    ensures forall pos: nat :: pos < 8 * table.Length ==>
        (table[pos / 8] / Pow2(pos % 8) % 2 == 1 <==> pos < jumps.Length && jumps[pos])
  {
    hide BitOf, LowBit;
    table := SetJumpBits(jumps);
    forall pos: nat | pos < 8 * table.Length
      ensures table[pos / 8] / Pow2(pos % 8) % 2 == 1 <==> pos < jumps.Length && jumps[pos]
    {
      LowBitIs(table[..], pos);
      hide Groups.Pow2;
    }
  }

  method SetJumpBits(jumps: array<bool>) returns (table: array<Byte>)
    ensures fresh(table) && table.Length == (jumps.Length + 7) / 8
    ensures forall pos: nat :: pos < 8 * table.Length ==> (LowBit(table[..], pos) <==> pos < jumps.Length && jumps[pos])
  {
    hide BitOf;
    table := new Byte[(jumps.Length + 7) / 8](_ => 0);
    forall pos: nat | pos < 8 * table.Length ensures !LowBit(table[..], pos) { ZeroByte(7 - pos % 8); }
    for n := 0 to jumps.Length
      invariant forall pos: nat :: pos < 8 * table.Length ==> (LowBit(table[..], pos) <==> pos < n && jumps[pos])
    {
      if jumps[n] { SetLowBit(table, n); }
    }
  }

  method SetLowBit(table: array<Byte>, n: nat)
    requires n < 8 * table.Length
    modifies table
    ensures forall pos: nat :: pos < 8 * table.Length ==>
        (LowBit(table[..], pos) <==> pos == n || old(LowBit(table[..], pos)))
  {
    hide BitOf, WithBit;
    ghost var before := table[..];
    table[n / 8] := WithBit(table[n / 8], 7 - n % 8);
    forall pos: nat | pos < 8 * table.Length ensures LowBit(table[..], pos) <==> pos == n || LowBit(before, pos) {
      if pos / 8 == n / 8 { WithBitSets(before[n / 8], 7 - n % 8, 7 - pos % 8); }
    }
  }

  // ----- the wire form

  /** The table has a bit for exactly the jump destinations, least significant first in each byte. */
  ghost predicate MarksJumps(table: seq<Byte>, code: Code) {
    && |table| == (|code| + 7) / 8
    && forall pos: nat :: pos < 8 * |table| ==> (table[pos / 8] / Pow2(pos % 8) % 2 == 1 <==> IsJump(code, pos))
  }

  /** The analysed code is the code followed by the fewest zero bytes that make it safe, at most 33; the
  jump destinations stay the same. */
  ghost predicate IsPadded(padded: Code, code: Code) {
    && code <= padded && |padded| <= |code| + 33
    && padded == code + Zeros(|padded| - |code|)
    && (forall p: nat :: IsJump(padded, p) <==> IsJump(code, p))
    && (code == [] ==> padded == [])
    && (code != [] ==> Safe(code, padded))
    && (code != [] ==> forall m: nat :: Safe(code, code + Zeros(m)) ==> |padded| <= |code| + m)
  }

  function Legacy(padded: Code, originalLen: nat, table: seq<Byte>): (w: seq<Byte>) {
    Digits(|padded| % TWO32, 4) + padded + [2] + Digits(originalLen % TWO64, 8) + table
  }

  function Delegation(code: Code): (w: seq<Byte>) {
    Digits(|code| % TWO32, 4) + code + [4]
  }

  /** The fields of the wire form of legacy code: a 32-bit length, the padded code, the marker 2, a 64-bit
  length and the jump table; numbers are big-endian. */
  ghost predicate LegacyLayout(wire: seq<Byte>, padded: Code, originalLen: nat, table: seq<Byte>) {
    var n := |padded|;
    && |wire| == 13 + n + |table|
    && Value(wire[..4]) == n % TWO32 && wire[4..4 + n] == padded
    && wire[4 + n] == 2 && Value(wire[5 + n..13 + n]) == originalLen % TWO64 && wire[13 + n..] == table
  }

  /** The fields of a stored designator: a 32-bit length, the designator and the marker 4. */
  ghost predicate DelegationLayout(wire: seq<Byte>, code: Code) {
    && |wire| == 5 + |code| && Value(wire[..4]) == |code| % TWO32
    && wire[4..4 + |code|] == code && wire[4 + |code|] == 4
  }

  lemma {:induction false} LegacyFields(padded: Code, originalLen: nat, table: seq<Byte>)
    ensures LegacyLayout(Legacy(padded, originalLen, table), padded, originalLen, table)
  {
    hide Digits, Value;
    var n, wire := |padded|, Legacy(padded, originalLen, table);
    DigitsFit(n);
    DigitsFit(originalLen);
    assert wire[..4] == Digits(n % TWO32, 4);
    assert wire[5 + n..13 + n] == Digits(originalLen % TWO64, 8);
    assert wire[4..4 + n] == padded;
    assert wire[13 + n..] == table;
  }

  lemma {:induction false} DelegationFields(code: Code)
    ensures DelegationLayout(Delegation(code), code)
  {
    hide Digits, Value;
    DigitsFit(|code|);
    assert Delegation(code)[..4] == Digits(|code| % TWO32, 4);
    assert Delegation(code)[4..4 + |code|] == code;
  }

  method Analyze(code: Code) returns (padded: Code, table: seq<Byte>)
    ensures IsPadded(padded, code) && MarksJumps(table, code)
  {
    hide BitOf, Starts, LastInstruction, InstructionBefore, Safe, Groups.Pow2;
    var jumps, i, lastOp, prevOp, last := Scan(code);
    var padding := i - |code| + Extra(lastOp, prevOp);
    padded := code + Zeros(padding);
    if code != [] {
      PaddedIsSafe(code, last, i, lastOp, prevOp);
      forall m: nat | Safe(code, code + Zeros(m)) ensures |padded| <= |code| + m {
        PaddingIsLeast(code, last, i, lastOp, prevOp, m);
      }
    }
    forall p: nat ensures IsJump(padded, p) <==> IsJump(code, p) { PaddingKeepsJumps(code, padding, p); }
    var bits := JumpTable(jumps);
    table := bits[..];
  }

  /** Designators are stored as they are, all other code with its analysis. */
  method EncodeBytecodeCompact(code: Code) returns (wire: seq<Byte>, ghost padded: Code, ghost table: seq<Byte>)
    ensures IsDesignator(code) ==> wire == Delegation(code) && DelegationLayout(wire, code)
    ensures !IsDesignator(code) ==>
        wire == Legacy(padded, |code|, table) && IsPadded(padded, code) && MarksJumps(table, code)
    ensures !IsDesignator(code) ==> LegacyLayout(wire, padded, |code|, table)
  {
    hide MarksJumps, IsPadded, Digits, Value;
    padded, table := code, [];
    if IsDesignator(code) {
      wire := Digits(|code| % TWO32, 4) + code + [EIP7702];
    } else {
      var analyzed, jumps := Analyze(code);
      padded, table := analyzed, jumps;
      wire := Digits(|analyzed| % TWO32, 4);
      wire := wire + analyzed;
      wire := wire + [LEGACY_ANALYZED];
      wire := wire + Digits(|code| % TWO64, 8);
      wire := wire + jumps;
      LegacyFields(padded, |code|, table);
    }
    DelegationFields(code);
  }

  /** What a reader of the wire form gets: the original code. */
  function ReadBack(wire: seq<Byte>): Option<Code> {
    if |wire| < 5 then None else
      var n := Value(wire[..4]);
      if |wire| < 5 + n then None
      else if wire[4 + n] == EIP7702 then Some(wire[4..4 + n])
      else if wire[4 + n] != LEGACY_ANALYZED || |wire| < 13 + n then None
      else
        var len := Value(wire[5 + n..13 + n]);
        if len > n then None else Some(wire[4..4 + len])
  }

  /** The jump table in the wire form of legacy code. */
  function ReadTable(wire: seq<Byte>): seq<Byte> {
    if |wire| < 5 then [] else
      var n := Value(wire[..4]);
      if |wire| < 13 + n then [] else wire[13 + n..]
  }

  lemma {:induction false} LegacyReadBack(padded: Code, code: Code, table: seq<Byte>)
    requires code <= padded && |padded| < TWO32
    ensures ReadBack(Legacy(padded, |code|, table)) == Some(code)
    ensures ReadTable(Legacy(padded, |code|, table)) == table
  {
    hide Digits, Value;
    Widths();
    var n := |padded|;
    DigitsValue(n, 4);
    DigitsValue(|code|, 8);
    var wire := Legacy(padded, |code|, table);
    assert n % TWO32 == n && |code| % TWO64 == |code|;
    assert wire[..4] == Digits(n, 4);
    assert wire[4 + n] == LEGACY_ANALYZED;
    assert wire[5 + n..13 + n] == Digits(|code|, 8);
    assert wire[4..4 + |code|] == padded[..|code|] == code;
    assert wire[13 + n..] == table;
  }

  lemma {:induction false} DelegationReadBack(code: Code)
    requires |code| < TWO32
    ensures ReadBack(Delegation(code)) == Some(code)
  {
    hide Digits, Value;
    Widths();
    var n := |code|;
    DigitsValue(n, 4);
    var wire := Delegation(code);
    assert n % TWO32 == n;
    assert wire[..4] == Digits(n, 4);
    assert wire[4 + n] == EIP7702;
    assert wire[4..4 + n] == code;
  }

  /** A reader gets at most as many bytes as the length field says. */
  lemma {:induction false} ReadsAtMost(wire: seq<Byte>)
    requires |wire| >= 5 && ReadBack(wire).Some?
    ensures |ReadBack(wire).value| <= Value(wire[..4])
  {
    hide Value;
  }

  /** A length that does not fit the 32-bit field makes the reader miss the code. */
  lemma {:induction false} TooLongIsLost(padded: Code, code: Code, table: seq<Byte>)
    requires TWO32 <= |padded| <= |code| + 33
    ensures ReadBack(Legacy(padded, |code|, table)) != Some(code)
  {
    hide Digits, Value, ReadBack;
    var wire := Legacy(padded, |code|, table);
    DigitsFit(|padded|);
    assert wire[..4] == Digits(|padded| % TWO32, 4);
    if ReadBack(wire).Some? { ReadsAtMost(wire); }
  }

  /** The wire form determines the code, and for legacy code the set of its jump destinations, exactly when
  the padded length fits its 32-bit field. */
  method RoundTrip(code: Code) returns (wire: seq<Byte>, ghost padded: Code)
    ensures IsDesignator(code) ==> ReadBack(wire) == Some(code)
    ensures !IsDesignator(code) ==> IsPadded(padded, code) && (ReadBack(wire) == Some(code) <==> |padded| < TWO32)
    ensures !IsDesignator(code) && |padded| < TWO32 ==> MarksJumps(ReadTable(wire), code)
  {
    hide ReadBack, ReadTable, Legacy, Delegation, MarksJumps, Safe, IsJump;
    ghost var table;
    wire, padded, table := EncodeBytecodeCompact(code);
    if IsDesignator(code) {
      DelegationReadBack(code);
    } else if |padded| < TWO32 {
      LegacyReadBack(padded, code, table);
    } else {
      TooLongIsLost(padded, code, table);
    }
  }
}
