/** Signed integers as big-endian bytes, and sequences of them. */
module BigEndian {
  import opened Prefixes

  type Byte = b: int | 0 <= b < 256

  function Pow256(w: nat): (p: nat)
    ensures p > 0
  {
    if w == 0 then 1 else 256 * Pow256(w - 1)
  }

  /** The low w bytes of n, most significant first. */
  function Bytes(n: nat, w: nat): (s: seq<Byte>)
    ensures |s| == w
  {
    if w == 0 then [] else Bytes(n / 256, w - 1) + [n % 256]
  }

  function Value(s: seq<Byte>): nat {
    if s == [] then 0 else
    256 * Value(s[..|s| - 1]) + s[|s| - 1]
  }

  ghost predicate Fits(x: int, w: nat) { 0 - Pow256(w) <= 2 * x < Pow256(w) }

  /** The two's-complement encoding of x in w bytes. */
  function Encode(x: int, w: nat): (s: seq<Byte>)
    requires Fits(x, w)
    ensures |s| == w
  {
    Bytes(if x < 0 then x + Pow256(w) else x, w)
  }

  function Decode(s: seq<Byte>): int {
    var n := Value(s);
    if 2 * n >= Pow256(|s|) then n - Pow256(|s|) else n
  }

  lemma {:induction false} ValueOfBytes(n: nat, w: nat)
    requires n < Pow256(w)
    ensures Value(Bytes(n, w)) == n
  {
    if w > 0 {
      ValueOfBytes(n / 256, w - 1);
      assert Bytes(n, w)[..w - 1] == Bytes(n / 256, w - 1);
    }
  }

  lemma DecodeEncode(x: int, w: nat)
    requires Fits(x, w)
    ensures Decode(Encode(x, w)) == x
  {
    ValueOfBytes(if x < 0 then x + Pow256(w) else x, w);
  }

  // ---------- the three widths there are ----------

  lemma PowersOf256()
    ensures Pow256(0) == 1 && Pow256(1) == 256 && Pow256(2) == 65536 && Pow256(3) == 16777216
    ensures Pow256(4) == 4294967296
  {
    assert Pow256(1) == 256 * Pow256(0);
    assert Pow256(2) == 256 * Pow256(1);
    assert Pow256(3) == 256 * Pow256(2);
    assert Pow256(4) == 256 * Pow256(3);
  }

  lemma BytesFromLast(n: nat, w: nat)
    requires w > 0
    ensures Bytes(n, w) == Bytes(n / 256, w - 1) + [n % 256] && Bytes(n, 0) == []
  {
  }

  /** One byte holds a value from -128 to 127. */
  lemma OneByte(x: int)
    ensures Fits(x, 1) <==> -128 <= x <= 127
    ensures Fits(x, 1) ==> Encode(x, 1) == [x % 256]
  {
    PowersOf256();
    hide Bytes, Pow256;
    if Fits(x, 1) {
      var n: nat := if x < 0 then x + 256 else x;
      BytesFromLast(n, 1);
      BytesFromLast(n / 256, 1);
      assert Bytes(n / 256, 0) == [];
    }
  }

  /** Two bytes hold a value from -32768 to 32767, the higher byte first. */
  lemma TwoBytes(x: int)
    ensures Fits(x, 2) <==> -32768 <= x <= 32767
    ensures Fits(x, 2) ==> Encode(x, 2) == [x / 256 % 256, x % 256]
  {
    PowersOf256();
    hide Bytes, Pow256;
    if Fits(x, 2) {
      var n: nat := if x < 0 then x + 65536 else x;
      TwoLow(n);
      if x < 0 {
        ShiftedOnce(x);
        LowByte(x / 256, 1);
        LowByte(x, 256);
      }
    }
  }

  lemma ShiftedOnce(x: int)
    ensures (x + 65536) / 256 == x / 256 + 256
  {
  }

  lemma TwoLow(n: nat)
    ensures Bytes(n, 2) == [n / 256 % 256, n % 256]
  {
    hide Bytes;
    BytesFromLast(n, 2);
    BytesFromLast(n / 256, 1);
    BytesFromLast(n / 256 / 256, 1);
  }

  /** Four bytes hold a value from -2^31 to 2^31 - 1, the highest byte first. */
  lemma FourBytes(x: int)
    ensures Fits(x, 4) <==> -2147483648 <= x <= 2147483647
    ensures Fits(x, 4) ==> Encode(x, 4) == [x / 16777216 % 256, x / 65536 % 256, x / 256 % 256, x % 256]
  {
    PowersOf256();
    hide Bytes, Pow256;
    if Fits(x, 4) {
      var n: nat := if x < 0 then x + 4294967296 else x;
      FourLow(n);
      Shifted(x, n);
    }
  }

  lemma Shifted(x: int, n: int)
    requires n == x || n == x + 4294967296
    ensures n / 16777216 % 256 == x / 16777216 % 256 && n / 65536 % 256 == x / 65536 % 256
    ensures n / 256 % 256 == x / 256 % 256 && n % 256 == x % 256
  {
    if n != x {
      ShiftedDown(x);
      LowByte(x / 16777216, 1);
      LowByte(x / 65536, 256);
      LowByte(x / 256, 65536);
      LowByte(x, 16777216);
    }
  }

  lemma ShiftedDown(x: int)
    ensures (x + 4294967296) / 16777216 == x / 16777216 + 256
    ensures (x + 4294967296) / 65536 == x / 65536 + 65536
    ensures (x + 4294967296) / 256 == x / 256 + 16777216
  {
  }

  lemma LowByte(a: int, k: int)
    ensures (a + 256 * k) % 256 == a % 256
  {
  }

  lemma FourLow(n: nat)
    ensures Bytes(n, 4) == [n / 16777216 % 256, n / 65536 % 256, n / 256 % 256, n % 256]
  {
    hide Bytes;
    BytesFromLast(n, 4);
    BytesFromLast(n / 256, 3);
    TwoLow(n / 256 / 256);
    Twice(n);
  }

  lemma Twice(n: nat)
    ensures n / 256 / 256 == n / 65536 && n / 256 / 256 / 256 == n / 16777216
  {
  }

  // ---------- sequences of mixed widths ----------

  datatype Item = Item(value: int, width: nat)

  ghost predicate AllFit(items: seq<Item>) {
    forall i :: 0 <= i < |items| ==> Fits(items[i].value, items[i].width)
  }

  /** The bytes after appending the items one after the other. */
  ghost function Appended(items: seq<Item>): seq<Byte>
    requires AllFit(items)
  {
    if items == [] then [] else
    Appended(items[..|items| - 1]) + Encode(items[|items| - 1].value, items[|items| - 1].width)
  }

  /** The bytes after prepending the items one after the other to s. */
  ghost function Prepended(items: seq<Item>, s: seq<Byte>): seq<Byte>
    requires AllFit(items)
  {
    if items == [] then s else
    Encode(items[|items| - 1].value, items[|items| - 1].width) + Prepended(items[..|items| - 1], s)
  }

  /** What reading integers of the given widths returns. */
  ghost function Reads(s: seq<Byte>, widths: seq<nat>): seq<int> {
    if widths == [] || |s| < widths[0] then [] else [Decode(s[..widths[0]])] + Reads(s[widths[0]..], widths[1..])
  }

  ghost function Widths(items: seq<Item>): seq<nat> { seq(|items|, i requires 0 <= i < |items| => items[i].width) }

  ghost function Values(items: seq<Item>): seq<int> { seq(|items|, i requires 0 <= i < |items| => items[i].value) }

  ghost function Reversed(items: seq<Item>): (r: seq<Item>)
    ensures |r| == |items|
  {
    if items == [] then [] else [items[|items| - 1]] + Reversed(items[..|items| - 1])
  }

  lemma {:induction false} ReadOne(x: int, w: nat, s: seq<Byte>, widths: seq<nat>)
    requires Fits(x, w)
    ensures Reads(Encode(x, w) + s, [w] + widths) == [x] + Reads(s, widths)
  {
    var t := Encode(x, w) + s;
    assert t[..w] == Encode(x, w) && t[w..] == s;
    assert ([w] + widths)[1..] == widths;
    DecodeEncode(x, w);
  }

  lemma {:induction false} AppendedFront(items: seq<Item>)
    requires AllFit(items) && items != []
    ensures Appended(items) == Encode(items[0].value, items[0].width) + Appended(items[1..])
  {
    hide *;
    AppendedLast(items);
    var n := |items| - 1;
    if n == 0 {
      NoItems(items[..0], []);
      NoItems(items[1..], []);
      OneItem(items);
    } else {
      AppendedFront(items[..n]);
      Middle(items);
      AppendedLast(items[1..]);
      var first, last := Encode(items[0].value, items[0].width), Encode(items[n].value, items[n].width);
      AppendAssociates(first, Appended(items[1..][..n - 1]), last);
    }
  }

  lemma OneItem(items: seq<Item>)
    requires AllFit(items) && |items| == 1
    ensures var e := Encode(items[0].value, items[0].width); [] + e == e + []
  {
  }

  lemma AppendedLast(items: seq<Item>)
    requires AllFit(items) && items != []
    ensures AllFit(items[1..]) && AllFit(items[..|items| - 1])
    ensures Fits(items[0].value, items[0].width) && Fits(items[|items| - 1].value, items[|items| - 1].width)
    ensures Appended(items) ==
            Appended(items[..|items| - 1]) + Encode(items[|items| - 1].value, items[|items| - 1].width)
  {
    hide Encode, Fits;
  }

  lemma ItemsFront(item: Item, items: seq<Item>)
    ensures Widths([item] + items) == [item.width] + Widths(items)
    ensures Values([item] + items) == [item.value] + Values(items)
  {
  }

  lemma NoItems(items: seq<Item>, s: seq<Byte>)
    requires items == []
    ensures Widths(items) == [] && Values(items) == [] && Reads(s, []) == [] && Appended(items) == []
            && Reversed(items) == []
    ensures Prepended(items, s) == s
  {
  }

  /** Reading the widths back in order returns the appended values in order. */
  lemma {:induction false} ReadsAppended(items: seq<Item>, rest: seq<Byte>)
    requires AllFit(items)
    ensures Reads(Appended(items) + rest, Widths(items)) == Values(items)
  {
    hide Encode, Decode, Fits, Widths, Values, Reads, Appended;
    if items == [] {
      NoItems(items, rest);
      assert [] + rest == rest;
    } else {
      var first, others := items[0], items[1..];
      AppendedFront(items);
      ReadsAppended(others, rest);
      assert items == [first] + others;
      ItemsFront(first, others);
      var e, s := Encode(first.value, first.width), Appended(others);
      assert (e + s) + rest == e + (s + rest);
      ReadOne(first.value, first.width, s + rest, Widths(others));
    }
  }

  /** Prepended values come back in reverse order, before everything else. */
  lemma {:induction false} ReadsPrepended(items: seq<Item>, s: seq<Byte>, widths: seq<nat>)
    requires AllFit(items)
    ensures Reads(Prepended(items, s), Widths(Reversed(items)) + widths) == Values(Reversed(items)) + Reads(s, widths)
  {
    hide Encode, Decode, Fits, Widths, Values, Reads, Prepended, Reversed;
    if items == [] {
      NoItems(items, s);
      assert [] + widths == widths;
      assert [] + Reads(s, widths) == Reads(s, widths);
    } else {
      var last, init := items[|items| - 1], items[..|items| - 1];
      ReadsPrepended(init, s, widths);
      LastFirst(items, s);
      ItemsFront(last, Reversed(init));
      var ws := Widths(Reversed(init));
      ReadOne(last.value, last.width, Prepended(init, s), ws + widths);
      assert ([last.width] + ws) + widths == [last.width] + (ws + widths);
    }
  }

  lemma LastFirst(items: seq<Item>, s: seq<Byte>)
    requires AllFit(items) && items != []
    ensures var last, init := items[|items| - 1], items[..|items| - 1];
            && Reversed(items) == [last] + Reversed(init)
            && Prepended(items, s) == Encode(last.value, last.width) + Prepended(init, s)
  {
  }
}
