/** Entity blobs of the geth writer's first phase: an account, with code and storage slots for contracts, as one
byte string. */
module EntityBlob {
  import opened Stems
  import opened Arithmetic
  import opened Endian

  type Bytes = seq<Byte>

  /** A 32-byte key with a 32-byte value. */
  datatype Slot = Slot(key: Bytes, value: Bytes)

  datatype Entity =
    | EOA(nonce: nat, balance: nat)
    | Contract(nonce: nat, balance: nat, code: Bytes, slots: seq<Slot>)

  /** The values the program's types can hold: 64-bit nonce, 256-bit balance, 32-byte keys and values. */
  predicate InRange(e: Entity) {
    && e.nonce < TWO64 && e.balance < TWO256
    && (e.Contract? ==> forall i :: 0 <= i < |e.slots| ==> IsSlot(e.slots[i]))
  }

  /** The lengths of code and slot list fit the 32-bit fields of the format. */
  predicate LengthsFit(e: Entity) {
    e.Contract? ==> |e.code| < TWO32 && |e.slots| < TWO32
  }

  predicate IsSlot(s: Slot) { |s.key| == 32 && |s.value| == 32 }

  const KIND_EOA: Byte := 1
  const KIND_CONTRACT: Byte := 2

  // ----- encoding

  lemma {:induction false} BalanceLength(balance: nat, k: nat)
    requires balance < TWO256 && k == 32
    ensures |Minimal(balance)| <= k
  {
    hide Minimal, Pow256;
    Width256(k);
    MinimalLength(balance, k);
  }

  function Header(kind: Byte, nonce: nat, balance: nat): (h: Bytes)
    requires nonce < TWO64 && balance < TWO256
    ensures |h| == 10 + |Minimal(balance)| && |Minimal(balance)| <= 32
  {
    BalanceLength(balance, 32);
    [kind] + Digits(nonce, 8) + [|Minimal(balance)|] + Minimal(balance)
  }

  function SlotBytes(slots: seq<Slot>): (b: Bytes)
    requires forall i :: 0 <= i < |slots| ==> IsSlot(slots[i])
    ensures |b| == 64 * |slots|
    decreases |slots|
  {
    if slots == [] then [] else
      var last := slots[|slots| - 1];
      assert IsSlot(last);
      SlotBytes(slots[..|slots| - 1]) + (last.key + last.value)
  }

  /** What follows the header of a contract. */
  function Body(code: Bytes, slots: seq<Slot>): Bytes
    requires forall i :: 0 <= i < |slots| ==> IsSlot(slots[i])
  {
    Digits(|code| % TWO32, 4) + code + Digits(|slots| % TWO32, 4) + SlotBytes(slots)
  }

  /** The byte string of an entity; longer lengths are cut to 32 bits. */
  function Encoded(e: Entity): Bytes
    requires InRange(e)
  {
    match e
    case EOA(nonce, balance) => Header(1, nonce, balance)
    case Contract(nonce, balance, code, slots) =>
      Header(2, nonce, balance) + Body(code, slots)
  }

  /** The fields every blob begins with: kind, 64-bit nonce, length of the balance, and the balance without
  leading zeros; numbers are big-endian. */
  ghost predicate HeaderLayout(b: Bytes, kind: Byte, nonce: nat, balance: nat) {
    && |b| >= 10 && b[0] == kind && Value(b[1..9]) == nonce
    && b[9] <= 32 && |b| >= 10 + b[9] as nat
    && Value(b[10..10 + b[9] as nat]) == balance && (b[9] > 0 ==> b[10] != 0)
  }

  /** The fields behind the header of a contract, from pos on: 32-bit length and bytes of the code, 32-bit
  number of slots, key and value of each slot. */
  ghost predicate BodyLayout(b: Bytes, pos: nat, code: Bytes, slots: seq<Slot>) {
    var at := pos + 8 + |code|;
    && |b| == at + 64 * |slots|
    && Value(b[pos..pos + 4]) == |code| % TWO32 && b[pos + 4..at - 4] == code
    && Value(b[at - 4..at]) == |slots| % TWO32
    && forall i :: 0 <= i < |slots| ==>
         b[at + 64 * i..at + 64 * i + 32] == slots[i].key && b[at + 64 * i + 32..at + 64 * i + 64] == slots[i].value
  }

  method EncodeEntityEOA(nonce: nat, balance: nat) returns (out: Bytes)
    requires InRange(EOA(nonce, balance))
    ensures out == Encoded(EOA(nonce, balance))
    ensures HeaderLayout(out, 1, nonce, balance) && |out| == 10 + out[9] as nat
  {
    hide Digits, Minimal, HeaderLayout;
    BalanceLength(balance, 32);
    var bal := Minimal(balance);
    var buf := new Byte[10 + |bal|](_ => 0);
    buf[0] := KIND_EOA;
    var nonceBytes := Digits(nonce, 8);
    forall i | 0 <= i < 8 { buf[1 + i] := nonceBytes[i]; }
    buf[9] := |bal| % 256;
    forall i | 0 <= i < |bal| { buf[10 + i] := bal[i]; }
    out := buf[..];
    assert out[1..9] == nonceBytes && out[10..] == bal;
    assert out == [KIND_EOA] + nonceBytes + [|bal|] + bal;
    AccountFields(nonce, balance);
  }

  method EncodeEntityContract(nonce: nat, balance: nat, code: Bytes, slots: seq<Slot>) returns (out: Bytes)
    requires InRange(Contract(nonce, balance, code, slots))
    ensures out == Encoded(Contract(nonce, balance, code, slots))
    ensures HeaderLayout(out, 2, nonce, balance) && BodyLayout(out, 10 + out[9] as nat, code, slots)
  {
    hide Digits, Minimal, SlotBytes, HeaderLayout, BodyLayout;
    BalanceLength(balance, 32);
    var bal := Minimal(balance);
    out := [KIND_CONTRACT];
    out := out + Digits(nonce, 8);
    out := out + [|bal| % 256];
    out := out + bal;
    assert out == Header(KIND_CONTRACT, nonce, balance);
    hide Header;
    ghost var head := out;
    out := out + Digits(|code| % TWO32, 4);
    out := out + code;
    out := out + Digits(|slots| % TWO32, 4);
    ghost var front := out;
    NextSlot(slots, 0);
    for i := 0 to |slots|
      invariant out == front + SlotBytes(slots[..i])
    {
      NextSlot(slots, i);
      out := out + slots[i].key;
      out := out + slots[i].value;
    }
    assert slots[..|slots|] == slots;
    assert out == head + Body(code, slots);
    HeaderFields(2, nonce, balance, Body(code, slots));
    BodyFields(head, code, slots);
  }

  lemma {:induction false} HeaderFields(kind: Byte, nonce: nat, balance: nat, rest: Bytes)
    requires nonce < TWO64 && balance < TWO256
    ensures var b := Header(kind, nonce, balance) + rest;
            HeaderLayout(b, kind, nonce, balance) && |Header(kind, nonce, balance)| == 10 + b[9] as nat
  {
    hide Value, Digits, Minimal;
    var b := Header(kind, nonce, balance) + rest;
    Widths();
    DigitsValue(nonce, 8);
    assert b[1..9] == Digits(nonce, 8);
    assert b[9] == |Minimal(balance)|;
    assert b[10..10 + b[9] as nat] == Minimal(balance);
  }

  lemma {:induction false} AccountFields(nonce: nat, balance: nat)
    requires InRange(EOA(nonce, balance))
    ensures var b := Encoded(EOA(nonce, balance));
            HeaderLayout(b, 1, nonce, balance) && |b| == 10 + b[9] as nat
  {
    hide HeaderLayout, Header;
    HeaderFields(1, nonce, balance, []);
    assert Header(1, nonce, balance) + [] == Header(1, nonce, balance);
  }

  lemma {:induction false} BodyFields(h: Bytes, code: Bytes, slots: seq<Slot>)
    requires forall i :: 0 <= i < |slots| ==> IsSlot(slots[i])
    ensures BodyLayout(h + Body(code, slots), |h|, code, slots)
  {
    hide Value, Digits, SlotBytes;
    var b, pos := h + Body(code, slots), |h|;
    var at := pos + 8 + |code|;
    DigitsFit(|code|);
    DigitsFit(|slots|);
    assert b[pos..pos + 4] == Digits(|code| % TWO32, 4);
    assert b[pos + 4..at - 4] == code;
    assert b[at - 4..at] == Digits(|slots| % TWO32, 4);
    var front := b[..at];
    assert b == front + SlotBytes(slots);
    SlotFields(front, slots);
  }

  lemma {:induction false} SlotFields(front: Bytes, slots: seq<Slot>)
    requires forall i :: 0 <= i < |slots| ==> IsSlot(slots[i])
    ensures var b, at := front + SlotBytes(slots), |front|;
      forall i :: 0 <= i < |slots| ==>
        b[at + 64 * i..at + 64 * i + 32] == slots[i].key && b[at + 64 * i + 32..at + 64 * i + 64] == slots[i].value
  {
    hide SlotBytes;
    forall i | 0 <= i < |slots|
      ensures SlotAt(front + SlotBytes(slots), |front| + 64 * i) == slots[i]
    {
      SlotBytesAt(front, slots, i);
    }
  }

  lemma {:induction false} NextSlot(slots: seq<Slot>, i: nat)
    requires i <= |slots| && forall k :: 0 <= k < |slots| ==> IsSlot(slots[k])
    ensures i == 0 ==> SlotBytes(slots[..i]) == []
    ensures i < |slots| ==> SlotBytes(slots[..i + 1]) == SlotBytes(slots[..i]) + (slots[i].key + slots[i].value)
  {
    if i < |slots| { assert slots[..i + 1][..i] == slots[..i]; }
  }

  // ----- decoding

  datatype Error =
    | TooShort | UnknownKind(kind: Byte) | TruncatedHeader | TruncatedBalance | TrailingEOA(bytes: nat)
    | TruncatedCodeLength | TruncatedCode | TruncatedSlotCount | TruncatedSlots(count: nat)
    | TrailingContract(bytes: nat)

  datatype Result = Ok(entity: Entity) | Err(error: Error)

  function SlotsOf(b: Bytes, pos: nat, n: nat): (s: seq<Slot>)
    requires pos + 64 * n <= |b|
    ensures |s| == n
    decreases n
  {
    if n == 0 then [] else SlotsOf(b, pos, n - 1) + [SlotAt(b, pos + 64 * (n - 1))]
  }

  function SlotAt(b: Bytes, pos: nat): Slot
    requires pos + 64 <= |b|
  {
    Slot(b[pos..pos + 32], b[pos + 32..pos + 64])
  }

  /** What a blob means, field by field. */
  function Decoded(b: Bytes): Result {
    if |b| < 1 then Err(TooShort)
    else if b[0] != 1 && b[0] != 2 then Err(UnknownKind(b[0]))
    else if |b| < 10 then Err(TruncatedHeader)
    else if |b| < 10 + (b[9] as nat) then Err(TruncatedBalance)
    else
      var nonce, balance, pos := Value(b[1..9]), Value(b[10..10 + (b[9] as nat)]) % TWO256, 10 + (b[9] as nat);
      if b[0] == 1 then
        (if pos != |b| then Err(TrailingEOA(|b| - pos)) else Ok(EOA(nonce, balance)))
      else DecodedContract(b, nonce, balance, pos)
  }

  function DecodedContract(b: Bytes, nonce: nat, balance: nat, pos: nat): Result
    requires pos <= |b|
  {
    if |b| < pos + 4 then Err(TruncatedCodeLength)
    else
      var codeLen := Value(b[pos..pos + 4]);
      if |b| < pos + 4 + codeLen then Err(TruncatedCode)
      else DecodedSlots(b, nonce, balance, b[pos + 4..pos + 4 + codeLen], pos + 4 + codeLen)
  }

  function DecodedSlots(b: Bytes, nonce: nat, balance: nat, code: Bytes, pos: nat): Result
    requires pos <= |b|
  {
    if |b| < pos + 4 then Err(TruncatedSlotCount)
    else
      var count := Value(b[pos..pos + 4]);
      if |b| < pos + 4 + count * 64 then Err(TruncatedSlots(count))
      else if |b| != pos + 4 + count * 64 then Err(TrailingContract(|b| - (pos + 4 + count * 64)))
      else Ok(Contract(nonce, balance, code, SlotsOf(b, pos + 4, count)))
  }

  /** Decodes any byte string: the cursor never leaves it, and exactly the well-formed ones are accepted. */
  method DecodeEntityBlob(b: Bytes) returns (r: Result)
    ensures r == Decoded(b)
  {
    hide Value;
    if |b| < 1 { return Err(TooShort); }
    var kind := b[0];
    if kind != KIND_EOA && kind != KIND_CONTRACT { return Err(UnknownKind(kind)); }
    var pos: nat := 1;
    if |b| < pos + 8 + 1 { return Err(TruncatedHeader); }
    var nonce := Value(b[pos..pos + 8]);
    pos := pos + 8;
    var balLen: nat := b[pos];
    pos := pos + 1;
    if |b| < pos + balLen { return Err(TruncatedBalance); }
    var balance := Value(b[pos..pos + balLen]) % TWO256;
    pos := pos + balLen;
    if kind == KIND_EOA {
      if pos != |b| { return Err(TrailingEOA(|b| - pos)); }
      return Ok(EOA(nonce, balance));
    }
    if |b| < pos + 4 { return Err(TruncatedCodeLength); }
    var codeLen := Value(b[pos..pos + 4]);
    pos := pos + 4;
    if |b| < pos + codeLen { return Err(TruncatedCode); }
    var code := b[pos..pos + codeLen];
    pos := pos + codeLen;
    r := DecodeSlots(b, nonce, balance, code, pos);
  }

  method DecodeSlots(b: Bytes, nonce: nat, balance: nat, code: Bytes, start: nat) returns (r: Result)
    requires start <= |b|
    ensures r == DecodedSlots(b, nonce, balance, code, start)
  {
    hide Value;
    var pos := start;
    if |b| < pos + 4 { return Err(TruncatedSlotCount); }
    var count := Value(b[pos..pos + 4]);
    pos := pos + 4;
    if |b| < pos + count * 64 { return Err(TruncatedSlots(count)); }
    var slots := [];
    for i := 0 to count
      invariant pos == start + 4 + 64 * i && slots == SlotsOf(b, start + 4, i)
    {
      slots := slots + [Slot(b[pos..pos + 32], b[pos + 32..pos + 64])];
      pos := pos + 64;
    }
    if pos != |b| { return Err(TrailingContract(|b| - pos)); }
    r := Ok(Contract(nonce, balance, code, slots));
  }

  // ----- round trip

  lemma {:induction false} SlotsReadBack(front: Bytes, slots: seq<Slot>, k: nat)
    requires k <= |slots| && forall i :: 0 <= i < |slots| ==> IsSlot(slots[i])
    ensures SlotsOf(front + SlotBytes(slots), |front|, k) == slots[..k]
    decreases k
  {
    if k > 0 {
      SlotsReadBack(front, slots, k - 1);
      SlotBytesAt(front, slots, k - 1);
      assert slots[..k] == slots[..k - 1] + [slots[k - 1]];
    }
  }

  lemma {:induction false} SlotBytesAt(front: Bytes, slots: seq<Slot>, k: nat)
    requires k < |slots| && forall i :: 0 <= i < |slots| ==> IsSlot(slots[i])
    ensures SlotAt(front + SlotBytes(slots), |front| + 64 * k) == slots[k]
    decreases |slots|
  {
    var n := |slots| - 1;
    var init, last := SlotBytes(slots[..n]), slots[n];
    assert IsSlot(last);
    assert front + SlotBytes(slots) == (front + init) + (last.key + last.value);
    if k < n {
      SlotBytesAt(front, slots[..n], k);
      SlotAtExtended(front + init, last.key + last.value, |front| + 64 * k);
    } else {
      SlotAtEnd(front + init, last);
    }
  }

  lemma {:induction false} SlotAtEnd(a: Bytes, s: Slot)
    requires IsSlot(s)
    ensures SlotAt(a + (s.key + s.value), |a|) == s
  {
    var b := a + (s.key + s.value);
    assert b[|a|..|a| + 32] == s.key;
    assert b[|a| + 32..|a| + 64] == s.value;
  }

  lemma {:induction false} SlotAtExtended(a: Bytes, t: Bytes, pos: nat)
    requires pos + 64 <= |a|
    ensures SlotAt(a + t, pos) == SlotAt(a, pos)
  {
  }

  /** The header fields of a byte string that begins with a header. */
  lemma {:induction false} HeaderReadBack(kind: Byte, nonce: nat, balance: nat, rest: Bytes)
    requires nonce < TWO64 && balance < TWO256
    ensures var b := Header(kind, nonce, balance) + rest;
            && |b| >= 10 && b[0] == kind && Value(b[1..9]) == nonce
            && 10 + (b[9] as nat) == |Header(kind, nonce, balance)|
            && Value(b[10..10 + (b[9] as nat)]) % TWO256 == balance
  {
    hide Value, Digits, Minimal;
    HeaderFields(kind, nonce, balance, rest);
    SmallMod(balance, TWO256);
  }

  lemma {:induction false} SmallMod(a: nat, n: nat)
    requires a < n
    ensures a % n == a
  {
  }

  /** Reading the body of a contract back yields it exactly when its lengths fit. */
  lemma {:induction false} ContractReadBack(h: Bytes, nonce: nat, balance: nat, code: Bytes, slots: seq<Slot>)
    requires forall i :: 0 <= i < |slots| ==> IsSlot(slots[i])
    ensures DecodedContract(h + Body(code, slots), nonce, balance, |h|) == Ok(Contract(nonce, balance, code, slots))
       <==> |code| < TWO32 && |slots| < TWO32
  {
    hide Value, Digits, SlotBytes, SlotsOf, DecodedSlots;
    DigitsFit(|code|);
    var front := h + Digits(|code| % TWO32, 4) + code;
    var b := h + Body(code, slots);
    var pos := |h|;
    assert b == front + (Digits(|slots| % TWO32, 4) + SlotBytes(slots));
    assert b[pos..pos + 4] == Digits(|code| % TWO32, 4);
    if |code| < TWO32 {
      assert b[pos + 4..pos + 4 + |code|] == code;
      SlotListReadBack(front, nonce, balance, code, slots);
    } else {
      var codeLen := |code| % TWO32;
      KeepsCode(b, nonce, balance, b[pos + 4..pos + 4 + codeLen], pos + 4 + codeLen);
    }
  }

  /** The slot list reads back exactly when its length fits. */
  lemma {:induction false} SlotListReadBack(front: Bytes, nonce: nat, balance: nat, code: Bytes, slots: seq<Slot>)
    requires forall i :: 0 <= i < |slots| ==> IsSlot(slots[i])
    ensures var b := front + (Digits(|slots| % TWO32, 4) + SlotBytes(slots));
            DecodedSlots(b, nonce, balance, code, |front|) == Ok(Contract(nonce, balance, code, slots)) <==>
                |slots| < TWO32
  {
    hide Value, Digits, SlotBytes, SlotsOf;
    DigitsFit(|slots|);
    var lead := front + Digits(|slots| % TWO32, 4);
    var b := front + (Digits(|slots| % TWO32, 4) + SlotBytes(slots));
    assert b == lead + SlotBytes(slots);
    assert b[|front|..|front| + 4] == Digits(|slots| % TWO32, 4);
    if |slots| < TWO32 {
      SlotsReadBack(lead, slots, |slots|);
      assert slots[..|slots|] == slots;
    }
  }

  lemma {:induction false} KeepsCode(b: Bytes, nonce: nat, balance: nat, code: Bytes, pos: nat)
    requires pos <= |b|
    ensures var r := DecodedSlots(b, nonce, balance, code, pos); r.Ok? ==> r.entity.Contract? && r.entity.code == code
  {
    hide Value, SlotsOf;
  }

  /** Decoding inverts encoding, exactly when the lengths fit. */
  lemma {:induction false} RoundTrip(e: Entity)
    requires InRange(e)
    ensures Decoded(Encoded(e)) == Ok(e) <==> LengthsFit(e)
  {
    hide Value, Digits, DecodedContract, SlotBytes, Header, Body;
    match e
    case EOA(nonce, balance) =>
      HeaderReadBack(KIND_EOA, nonce, balance, []);
      assert Header(KIND_EOA, nonce, balance) + [] == Encoded(e);
    case Contract(nonce, balance, code, slots) =>
      HeaderReadBack(KIND_CONTRACT, nonce, balance, Body(code, slots));
      ContractReadBack(Header(KIND_CONTRACT, nonce, balance), nonce, balance, code, slots);
  }

  // ----- the converse

  /** The balance field has no leading zero and at most 32 bytes. */
  predicate Canonical(b: Bytes) {
    |b| >= 10 && b[9] <= 32 && (b[9] > 0 && |b| > 10 ==> b[10] != 0)
  }

  lemma {:induction false} SlotsAreSlots(b: Bytes, pos: nat, n: nat)
    requires pos + 64 * n <= |b|
    ensures forall i :: 0 <= i < n ==> IsSlot(SlotsOf(b, pos, n)[i])
    decreases n
  {
    if n > 0 { SlotsAreSlots(b, pos, n - 1); }
  }

  lemma {:induction false} SlotsSnoc(b: Bytes, pos: nat, n: nat)
    requires n > 0 && pos + 64 * n <= |b|
    ensures SlotsOf(b, pos, n) == SlotsOf(b, pos, n - 1) + [SlotAt(b, pos + 64 * (n - 1))]
  {
  }

  lemma {:induction false} JoinSlot(b: Bytes, pos: nat, at: nat)
    requires pos <= at && at + 64 <= |b|
    ensures IsSlot(SlotAt(b, at))
    ensures b[pos..at + 64] == b[pos..at] + (SlotAt(b, at).key + SlotAt(b, at).value)
  {
    assert b[pos..at + 64] == b[pos..at] + (b[at..at + 32] + b[at + 32..at + 64]);
  }

  /** The slots read from a stretch of bytes, written again, are that stretch. */
  lemma {:induction false} SlotsWriteBack(b: Bytes, pos: nat, n: nat)
    requires pos + 64 * n <= |b| && forall i :: 0 <= i < n ==> IsSlot(SlotsOf(b, pos, n)[i])
    ensures SlotBytes(SlotsOf(b, pos, n)) == b[pos..pos + 64 * n]
    decreases n
  {
    hide SlotAt, SlotsOf, SlotBytes, IsSlot;
    SlotsAreSlots(b, pos, n);
    if n > 0 {
      SlotsAreSlots(b, pos, n - 1);
      SlotsWriteBack(b, pos, n - 1);
      SlotsSnoc(b, pos, n);
      JoinSlot(b, pos, pos + 64 * (n - 1));
      SlotBytesSnoc(SlotsOf(b, pos, n - 1), SlotAt(b, pos + 64 * (n - 1)));
    } else {
      EmptySlots(SlotsOf(b, pos, n));
    }
  }

  lemma {:induction false} EmptySlots(s: seq<Slot>)
    requires s == []
    ensures SlotBytes(s) == []
  {
  }

  lemma {:induction false} SlotBytesSnoc(init: seq<Slot>, s: Slot)
    requires IsSlot(s) && forall i :: 0 <= i < |init| ==> IsSlot(init[i])
    ensures forall i :: 0 <= i < |init + [s]| ==> IsSlot((init + [s])[i])
    ensures SlotBytes(init + [s]) == SlotBytes(init) + (s.key + s.value)
  {
    assert (init + [s])[..|init|] == init;
  }

  lemma {:induction false} SlotListIs(b: Bytes, nonce: nat, balance: nat, code: Bytes, at: nat)
    requires at <= |b| && DecodedSlots(b, nonce, balance, code, at).Ok?
    ensures var e := DecodedSlots(b, nonce, balance, code, at).entity;
            && e.Contract? && e.nonce == nonce && e.balance == balance && e.code == code && |e.slots| < TWO32
            && (forall i :: 0 <= i < |e.slots| ==> IsSlot(e.slots[i]))
            && b[at..] == Digits(|e.slots| % TWO32, 4) + SlotBytes(e.slots)
  {
    hide Value, Digits, SlotBytes, SlotsOf, IsSlot;
    var count := Value(b[at..at + 4]);
    ValuesFit(b[at..at + 4]);
    ValueDigits(b[at..at + 4]);
    SlotsAreSlots(b, at + 4, count);
    SlotsWriteBack(b, at + 4, count);
    assert b[at..] == b[at..at + 4] + b[at + 4..at + 4 + 64 * count];
  }

  lemma {:induction false} BodyIs(b: Bytes, nonce: nat, balance: nat, pos: nat)
    requires pos <= |b| && DecodedContract(b, nonce, balance, pos).Ok?
    ensures var e := DecodedContract(b, nonce, balance, pos).entity;
            && e.Contract? && e.nonce == nonce && e.balance == balance && LengthsFit(e)
            && (forall i :: 0 <= i < |e.slots| ==> IsSlot(e.slots[i])) && b[pos..] == Body(e.code, e.slots)
  {
    hide Value, Digits, SlotBytes, DecodedSlots, IsSlot;
    var codeLen := Value(b[pos..pos + 4]);
    ValuesFit(b[pos..pos + 4]);
    ValueDigits(b[pos..pos + 4]);
    var at := pos + 4 + codeLen;
    SlotListIs(b, nonce, balance, b[pos + 4..at], at);
    assert b[pos..] == b[pos..pos + 4] + b[pos + 4..at] + b[at..];
  }

  lemma {:induction false} HeaderIs(b: Bytes)
    requires |b| >= 10 && |b| >= 10 + (b[9] as nat) && Canonical(b)
    ensures Value(b[1..9]) < TWO64 && Value(b[10..10 + (b[9] as nat)]) < TWO256
    ensures b[..10 + (b[9] as nat)] == Header(b[0], Value(b[1..9]), Value(b[10..10 + (b[9] as nat)]))
  {
    hide Value, Digits, Minimal, Pow256;
    var n := b[9] as nat;
    var bal := b[10..10 + n];
    ValuesFit(b[1..9]);
    ValueDigits(b[1..9]);
    MinimalIsUnique(bal);
    ShortBalance(bal);
    assert b[..10 + n] == [b[0]] + b[1..9] + [b[9]] + bal;
  }

  lemma {:induction false} ShortBalance(bal: Bytes)
    requires |bal| <= 32
    ensures Value(bal) < TWO256
  {
    hide Value, Pow256;
    ValueBound(bal);
    PowSum(32 - |bal|, |bal|);
    Width256(32 - |bal| + |bal|);
    MulMonotone(1, Pow256(32 - |bal|), Pow256(|bal|));
  }

  /** An accepted blob is the encoding of its entity exactly when its balance field is canonical. */
  lemma {:induction false} AcceptedIsEncoding(b: Bytes)
    requires Decoded(b).Ok?
    ensures Canonical(b) <==>
        InRange(Decoded(b).entity) && LengthsFit(Decoded(b).entity) && b == Encoded(Decoded(b).entity)
  {
    hide Value, Digits, DecodedContract, SlotBytes, Header, Body, Minimal;
    var e := Decoded(b).entity;
    var pos := 10 + (b[9] as nat);
    if b[0] == KIND_CONTRACT { BodyIs(b, Value(b[1..9]), Value(b[10..pos]) % TWO256, pos); }
    assert b == b[..pos] + b[pos..];
    if Canonical(b) {
      HeaderIs(b);
      SmallMod(Value(b[10..pos]), TWO256);
    }
    if InRange(e) && b == Encoded(e) {
      EncodingIsCanonical(b[0], e.nonce, e.balance, if e.Contract? then Body(e.code, e.slots) else []);
    }
  }

  lemma {:induction false} EncodingIsCanonical(kind: Byte, nonce: nat, balance: nat, rest: Bytes)
    requires nonce < TWO64 && balance < TWO256
    ensures Canonical(Header(kind, nonce, balance)) && Canonical(Header(kind, nonce, balance) + rest)
  {
    hide Value, Digits, Minimal;
    var h := Header(kind, nonce, balance);
    assert h[9] == |Minimal(balance)|;
    assert |Minimal(balance)| > 0 ==> h[10] == Minimal(balance)[0];
    assert (h + rest)[9] == h[9];
  }

  // ----- accepted blobs

  lemma {:induction false} SlotsEnd(a: Bytes, t: Bytes, nonce: nat, balance: nat, code: Bytes, pos: nat)
    requires pos <= |a| && DecodedSlots(a, nonce, balance, code, pos).Ok? &&
        DecodedSlots(a + t, nonce, balance, code, pos).Ok?
    ensures t == []
  {
    hide Value, SlotsOf;
    assert (a + t)[pos..pos + 4] == a[pos..pos + 4];
  }

  lemma {:induction false} ContractEnd(a: Bytes, t: Bytes, nonce: nat, balance: nat, pos: nat)
    requires pos <= |a| && DecodedContract(a, nonce, balance, pos).Ok? &&
        DecodedContract(a + t, nonce, balance, pos).Ok?
    ensures t == []
  {
    hide Value, DecodedSlots;
    assert (a + t)[pos..pos + 4] == a[pos..pos + 4];
    var end := pos + 4 + Value(a[pos..pos + 4]);
    assert (a + t)[pos + 4..end] == a[pos + 4..end];
    SlotsEnd(a, t, nonce, balance, a[pos + 4..end], end);
  }

  /** No accepted blob is a proper prefix of another. */
  lemma {:induction false} PrefixFree(a: Bytes, t: Bytes)
    requires Decoded(a).Ok? && Decoded(a + t).Ok?
    ensures t == []
  {
    hide Value, DecodedContract;
    assert (a + t)[1..9] == a[1..9];
    var pos := 10 + (a[9] as nat);
    assert (a + t)[9] == a[9];
    assert (a + t)[10..pos] == a[10..pos];
    if a[0] == KIND_CONTRACT {
      ContractEnd(a, t, Value(a[1..9]), Value(a[10..pos]) % TWO256, pos);
    }
  }

  /** Every proper prefix and every proper extension of an encoding is rejected. */
  lemma {:induction false} OthersRejected(e: Entity, b: Bytes)
    requires InRange(e) && LengthsFit(e) && b != Encoded(e) && (b <= Encoded(e) || Encoded(e) <= b)
    ensures Decoded(b).Err?
  {
    hide Encoded, Decoded;
    RoundTrip(e);
    var a := Encoded(e);
    if Decoded(b).Ok? {
      if b <= a {
        assert a == b + a[|b|..];
        PrefixFree(b, a[|b|..]);
      } else {
        assert b == a + b[|a|..];
        PrefixFree(a, b[|a|..]);
      }
    }
  }
}
