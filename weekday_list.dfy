/**
  The weekday bitmask codec shared by the scraper and the application
  (shared/weekdayList.ts). Bit i of a mask stands for WEEKDAYS[i].

  The file's `encodeWeekdayList` does not do what its documentation says:
  its `for...in` loop walks the array keys "0" .. "4" and sets the bit at the
  position of such a key in the input list. Both the encoding as written and
  the documented encoding are modelled; the documented one is the one the
  round trip holds for and the one the rest of the model uses.
 */
module WeekdayList {
  import opened Results

  /** `Weekdays` / `WEEKDAYS`, Monday to Friday. */
  const WEEKDAYS: seq<string> := ["M", "Tu", "W", "Th", "F"]

  /** The 32-bit integer JavaScript's bitwise operators work on. */
  type Mask = bv32

  /** `1 << i`, for the five bit positions the codec uses. */
  function Shifted(i: nat): Mask
    requires i < 5
  {
    1 << i
  }

  /** `(m & (1 << i)) !== 0`: bit `i` of the mask is set. */
  predicate Bit(m: Mask, i: nat)
    requires i < 5
  {
    m & Shifted(i) != 0
  }

  /** `m | (1 << i)`. */
  function SetBit(m: Mask, i: nat): Mask
    requires i < 5
  {
    m | Shifted(i)
  }

  /** The same fact on the bit-vector operators themselves. */
  lemma OrShiftAnd(m: Mask, i: nat, j: nat)
    requires i < 5 && j < 5
    ensures (m | (1 << i)) & (1 << j) != 0 <==> m & (1 << j) != 0 || i == j
  {
  }

  /** Or-ing in bit `i` sets bit `i` and keeps bit `j` for every other `j`. */
  lemma SetBitBit(m: Mask, i: nat, j: nat)
    requires i < 5 && j < 5
    ensures Bit(SetBit(m, i), j) <==> Bit(m, j) || j == i
  {
    OrShiftAnd(m, i, j);
  }

  /** Or-ing in bit `i` sets bit `i`, keeps the other bits, and keeps a mask below 32 below 32. */
  lemma SetBitBits(m: Mask, i: nat)
    requires i < 5
    ensures forall j :: 0 <= j < 5 ==> (Bit(SetBit(m, i), j) <==> Bit(m, j) || j == i)
    ensures m < 32 ==> SetBit(m, i) < 32
  {
    forall j | 0 <= j < 5 ensures Bit(SetBit(m, i), j) <==> Bit(m, j) || j == i {
      SetBitBit(m, i, j);
    }
    assert Shifted(i) < 32;
  }

  /** `findIndex(item => item === x)`: the first position of `x`, or -1. */
  function FindIndex(list: seq<string>, x: string): (r: int)
    ensures -1 <= r < |list|
    ensures r == -1 <==> x !in list
    ensures r >= 0 ==> list[r] == x && x !in list[..r]
  {
    if list == [] then -1
    else if list[0] == x then 0
    else
      var r := FindIndex(list[1..], x);
      assert list == [list[0]] + list[1..];
      if r == -1 then -1
      else
        assert list[..r + 1] == [list[0]] + list[1..][..r];
        r + 1
  }

  /** The five tokens are pairwise different. */
  lemma WeekdaysDistinct()
    ensures forall i, j :: 0 <= i < j < 5 ==> WEEKDAYS[i] != WEEKDAYS[j]
  {
    assert WEEKDAYS[0] == "M" && WEEKDAYS[1] == "Tu" && WEEKDAYS[2] == "W";
    assert WEEKDAYS[3] == "Th" && WEEKDAYS[4] == "F";
    assert WEEKDAYS[1][1] != WEEKDAYS[3][1];
  }

  // ---------------------------------------------------------------------------
  // encodeWeekdayList as written
  // ---------------------------------------------------------------------------

  /** The key strings a `for...in` loop over the five-element array WEEKDAYS yields. */
  function Key(k: nat): (r: string)
    requires k < 5
    ensures |r| == 1 && '0' <= r[0] <= '4'
  {
    [('0' as int + k) as char]
  }

  /**
    The mask the `for...in` loop has built after its first `k` keys: for key
    "j" that occurs in the list, the bit at the key's first position in the
    list is or-ed in.
   */
  function EncodedAsWrittenUpTo(list: seq<string>, k: nat): (r: Mask)
    requires |list| <= 5 && k <= 5
    ensures r < 32
  {
    if k == 0 then 0
    else
      var m := EncodedAsWrittenUpTo(list, k - 1);
      var index := FindIndex(list, Key(k - 1));
      if index == -1 then m else SetBitBits(m, index); SetBit(m, index)
  }

  function EncodedAsWritten(list: seq<string>): Mask
    requires |list| <= 5
  {
    EncodedAsWrittenUpTo(list, 5)
  }

  /** `encodeWeekdayList` exactly as written (shared/weekdayList.ts:26-41). */
  method EncodeAsWritten(weekdayList: seq<string>) returns (r: Result<Mask>)
    ensures |weekdayList| > 5 <==> r == Err(TooManyWeekdays)
    ensures |weekdayList| <= 5 ==> r == Ok(EncodedAsWritten(weekdayList))
  {
    var encoded: Mask := 0;
    if |weekdayList| > 5 {
      return Err(TooManyWeekdays);
    }
    for k := 0 to 5
      invariant encoded == EncodedAsWrittenUpTo(weekdayList, k)
    {
      var index := FindIndex(weekdayList, Key(k));
      if index != -1 {
        encoded := SetBit(encoded, index);
      }
    }
    return Ok(encoded);
  }

  /** No weekday token is one of the `for...in` keys "0" .. "4". */
  lemma KeyIsNoWeekday(k: nat)
    requires k < 5
    ensures Key(k) !in WEEKDAYS
  {
    var key := Key(k);
    forall i | 0 <= i < 5 ensures WEEKDAYS[i] != key {
      assert WEEKDAYS[i][0] != key[0];
    }
  }

  /**
    The defect: on any list made only of weekday tokens the encoding as
    written is 0, because no token equals a key "0" .. "4".
   */
  lemma EncodeAsWrittenIgnoresWeekdays(list: seq<string>, k: nat)
    requires |list| <= 5 && k <= 5
    requires forall x :: x in list ==> x in WEEKDAYS
    ensures EncodedAsWrittenUpTo(list, k) == 0
  {
    forall j | 0 <= j < 5 ensures Key(j) !in list {
      KeyIsNoWeekday(j);
    }
    EncodeAsWrittenWithoutKeys(list, k);
  }

  /** As written, any list that holds none of the strings "0" .. "4" encodes to 0. */
  lemma {:induction false} EncodeAsWrittenWithoutKeys(list: seq<string>, k: nat)
    requires |list| <= 5 && k <= 5
    requires forall j :: 0 <= j < 5 ==> Key(j) !in list
    ensures EncodedAsWrittenUpTo(list, k) == 0
  {
    if k > 0 {
      EncodeAsWrittenWithoutKeys(list, k - 1);
      assert FindIndex(list, Key(k - 1)) == -1;
    }
  }

  /** The documented example does not hold as written: ["M", "F"] encodes to 0, not 17. */
  lemma EncodeAsWrittenExample()
    ensures EncodedAsWritten(["M", "F"]) == 0
  {
    EncodeAsWrittenIgnoresWeekdays(["M", "F"], 5);
  }

  // ---------------------------------------------------------------------------
  // encodeWeekdayList as documented
  // ---------------------------------------------------------------------------

  /** The documented mask over the first `k` weekdays: bit i set iff i < k and WEEKDAYS[i] is in the list. */
  function EncodedUpTo(list: seq<string>, k: nat): (r: Mask)
    requires k <= 5
    ensures r < 32
    ensures forall i :: 0 <= i < 5 ==> (Bit(r, i) <==> i < k && WEEKDAYS[i] in list)
  {
    if k == 0 then 0
    else
      var m := EncodedUpTo(list, k - 1);
      if WEEKDAYS[k - 1] in list then SetBitBits(m, k - 1); SetBit(m, k - 1) else m
  }

  function Encoded(list: seq<string>): Mask {
    EncodedUpTo(list, 5)
  }

  /**
    `encodeWeekdayList` as its documentation describes it: the loop walks the
    weekdays and or-s in the bit of each weekday that occurs in the list.
   */
  method EncodeIntended(weekdayList: seq<string>) returns (r: Result<Mask>)
    ensures |weekdayList| > 5 <==> r == Err(TooManyWeekdays)
    ensures |weekdayList| <= 5 ==> r == Ok(Encoded(weekdayList))
  {
    var encoded: Mask := 0;
    if |weekdayList| > 5 {
      return Err(TooManyWeekdays);
    }
    for k := 0 to 5
      invariant encoded == EncodedUpTo(weekdayList, k)
    {
      if WEEKDAYS[k] in weekdayList {
        encoded := SetBit(encoded, k);
      }
    }
    return Ok(encoded);
  }

  /** The documented example: encode(["M", "F"]) = 17. */
  lemma EncodeExample()
    ensures Encoded(["M", "F"]) == 17
  {
    var list := ["M", "F"];
    assert WEEKDAYS[0] in list && WEEKDAYS[4] in list;
    assert WEEKDAYS[1] !in list && WEEKDAYS[2] !in list && WEEKDAYS[3] !in list;
    FiveBitsDetermine(Encoded(list), 17);
  }

  // ---------------------------------------------------------------------------
  // decodeWeekdayList
  // ---------------------------------------------------------------------------

  /**
    The tokens of the set bits below `k`: each is a weekday, their weekday
    positions strictly increase (Monday-to-Friday order, no duplicates).
   */
  function DecodedUpTo(m: Mask, k: nat): (r: seq<string>)
    requires k <= 5
    ensures |r| <= k
    ensures forall a :: 0 <= a < |r| ==> r[a] in WEEKDAYS[..k]
    ensures forall i :: 0 <= i < k ==> (WEEKDAYS[i] in r <==> Bit(m, i))
  {
    if k == 0 then []
    else
      var prefix := DecodedUpTo(m, k - 1);
      assert WEEKDAYS[..k] == WEEKDAYS[..k - 1] + [WEEKDAYS[k - 1]];
      WeekdaysDistinct();
      assert WEEKDAYS[k - 1] !in prefix;
      prefix + (if Bit(m, k - 1) then [WEEKDAYS[k - 1]] else [])
  }

  /** The set bits below `k`, in increasing order. */
  function SetBits(m: Mask, k: nat): (r: seq<nat>)
    requires k <= 5
    ensures forall a :: 0 <= a < |r| ==> r[a] < k
    ensures forall a, b :: 0 <= a < b < |r| ==> r[a] < r[b]
  {
    if k == 0 then [] else SetBits(m, k - 1) + (if Bit(m, k - 1) then [k - 1] else [])
  }

  /**
    The decoded tokens are the weekdays at the set bits, in increasing bit
    order: Monday-to-Friday order, so none occurs twice.
   */
  lemma {:induction false} DecodedInOrder(m: Mask, k: nat)
    requires k <= 5
    ensures |DecodedUpTo(m, k)| == |SetBits(m, k)|
    ensures forall a :: 0 <= a < |SetBits(m, k)| ==> DecodedUpTo(m, k)[a] == WEEKDAYS[SetBits(m, k)[a]]
  {
    if k > 0 {
      DecodedInOrder(m, k - 1);
    }
  }

  function Decoded(m: Mask): seq<string> {
    DecodedUpTo(m, 5)
  }

  /** `decodeWeekdayList` (shared/weekdayList.ts:50-58). */
  method DecodeWeekdayList(encodedWeekdayList: Mask) returns (weekdayList: seq<string>)
    ensures weekdayList == Decoded(encodedWeekdayList)
  {
    weekdayList := [];
    for i := 0 to 5
      invariant weekdayList == DecodedUpTo(encodedWeekdayList, i)
    {
      if Bit(encodedWeekdayList, i) {
        weekdayList := weekdayList + [WEEKDAYS[i]];
      }
    }
  }

  /** Bits 5 and up of the mask do not affect decoding. */
  lemma DecodeIgnoresHighBits(m: Mask)
    ensures Decoded(m) == Decoded(m & 31)
  {
    assert forall i :: 0 <= i < 5 ==> (Bit(m, i) <==> Bit(m & 31, i));
    DecodeIgnoresHighBitsUpTo(m, m & 31, 5);
  }

  lemma {:induction false} DecodeIgnoresHighBitsUpTo(m: Mask, r: Mask, k: nat)
    requires k <= 5
    requires forall i :: 0 <= i < 5 ==> (Bit(m, i) <==> Bit(r, i))
    ensures DecodedUpTo(m, k) == DecodedUpTo(r, k)
  {
    if k > 0 {
      DecodeIgnoresHighBitsUpTo(m, r, k - 1);
    }
  }

  /** The documented examples: decode(0) = [] and decode(17) = ["M", "F"]. */
  lemma DecodeExamples()
    ensures Decoded(0) == []
    ensures Decoded(17) == ["M", "F"]
  {
    assert !Bit(0, 0) && !Bit(0, 1) && !Bit(0, 2) && !Bit(0, 3) && !Bit(0, 4);
    assert DecodedUpTo(0, 1) == [] && DecodedUpTo(0, 2) == [] && DecodedUpTo(0, 3) == [];
    assert DecodedUpTo(0, 4) == [];
    assert Bit(17, 0) && !Bit(17, 1) && !Bit(17, 2) && !Bit(17, 3) && Bit(17, 4);
    assert DecodedUpTo(17, 1) == ["M"];
    assert DecodedUpTo(17, 2) == ["M"];
    assert DecodedUpTo(17, 3) == ["M"];
    assert DecodedUpTo(17, 4) == ["M"];
  }

  /** The weekdays of a list, in Monday-to-Friday order, each once. */
  function CanonicalUpTo(list: seq<string>, k: nat): seq<string>
    requires k <= 5
  {
    if k == 0 then []
    else CanonicalUpTo(list, k - 1) + (if WEEKDAYS[k - 1] in list then [WEEKDAYS[k - 1]] else [])
  }

  function Canonical(list: seq<string>): seq<string> {
    CanonicalUpTo(list, 5)
  }

  lemma {:induction false} DecodedMatchesCanonical(m: Mask, list: seq<string>, k: nat)
    requires k <= 5
    requires forall i :: 0 <= i < 5 ==> (Bit(m, i) <==> WEEKDAYS[i] in list)
    ensures DecodedUpTo(m, k) == CanonicalUpTo(list, k)
  {
    if k > 0 {
      DecodedMatchesCanonical(m, list, k - 1);
    }
  }

  /**
    Round trip over lists: decoding the documented encoding of any list of
    weekday tokens gives its weekdays in Monday-to-Friday order, each once,
    whatever order the list had.
   */
  lemma DecodeEncode(list: seq<string>)
    ensures Decoded(Encoded(list)) == Canonical(list)
  {
    DecodedMatchesCanonical(Encoded(list), list, 5);
  }

  /** Round trip over masks: every mask in [0, 31] is the documented encoding of its decoding. */
  lemma EncodeDecode(m: Mask)
    requires m < 32
    ensures Encoded(Decoded(m)) == m
  {
    var e := Encoded(Decoded(m));
    FiveBitsDetermine(e, m);
  }

  /** Two masks in [0, 31] with the same five low bits are equal. */
  lemma FiveBitsDetermine(x: Mask, y: Mask)
    requires x < 32 && y < 32
    requires forall i :: 0 <= i < 5 ==> (Bit(x, i) <==> Bit(y, i))
    ensures x == y
  {
    assert Bit(x, 0) == Bit(y, 0) && Bit(x, 1) == Bit(y, 1) && Bit(x, 2) == Bit(y, 2);
    assert Bit(x, 3) == Bit(y, 3) && Bit(x, 4) == Bit(y, 4);
  }
}
