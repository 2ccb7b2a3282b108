/**
  Bytes laid out field by field, the way a writer of binaries does, and where the check of
  `BinaryTarget` finds the fields again.
 */
module BinaryLayout {
  import opened Arith
  import opened Wrappers
  import opened Bytes
  import opened BinaryTarget

  type U64 = n: int | 0 <= n < 0x1_0000_0000_0000_0000

  // ----- laying out fields

  datatype Item = Num(value: nat, width: nat) | Raw(bytes: seq<Byte>)

  function ItemBytes(item: Item): seq<Byte> {
    match item
    case Num(value, width) => LittleEndian(value, width)
    case Raw(bytes) => bytes
  }

  function Layout(items: seq<Item>): seq<Byte> {
    if |items| == 0 then [] else Layout(items[..|items| - 1]) + ItemBytes(items[|items| - 1])
  }

  function Size(item: Item): nat {
    match item
    case Num(_, width) => width
    case Raw(bytes) => |bytes|
  }

  /** Where item `k` begins. */
  function Start(items: seq<Item>, k: nat): nat
    requires k <= |items|
  {
    if k == 0 then 0 else Start(items, k - 1) + Size(items[k - 1])
  }

  lemma {:induction false} StartIsLength(items: seq<Item>, k: nat)
    requires k <= |items|
    ensures |Layout(items[..k])| == Start(items, k)
  {
    if k > 0 {
      StartIsLength(items, k - 1);
      assert items[..k][..k - 1] == items[..k - 1];
    }
  }

  lemma {:induction false} ItemAt(items: seq<Item>, k: nat)
    requires k < |items|
    ensures Start(items, k) + Size(items[k]) <= |Layout(items)|
    ensures Layout(items)[Start(items, k)..Start(items, k) + Size(items[k])] == ItemBytes(items[k])
    decreases |items|
  {
    var m := |items| - 1;
    assert items[..m + 1] == items;
    StartIsLength(items, m);
    StartIsLength(items, m + 1);
    if k < m {
      ItemAt(items[..m], k);
      StartInPrefix(items, m, k);
      StartIsLength(items[..m], k);
      assert items[..m][k] == items[k];
    }
  }

  lemma {:induction false} StartInPrefix(items: seq<Item>, m: nat, k: nat)
    requires k <= m <= |items|
    ensures Start(items[..m], k) == Start(items, k)
  {
    if k > 0 {
      StartInPrefix(items, m, k - 1);
    }
  }

  /** The bytes of `part` are in the image at `at`. */
  ghost predicate Stands(image: seq<Byte>, at: nat, part: seq<Byte>) {
    at + |part| <= |image| && image[at..at + |part|] == part
  }

  lemma StandsInside(image: seq<Byte>, at: nat, part: seq<Byte>)
    requires Stands(image, at, part)
    ensures at + |part| <= |image|
  {
  }

  lemma PartStands(image: seq<Byte>, at: nat, part: seq<Byte>, from: nat, n: nat)
    requires Stands(image, at, part) && from + n <= |part|
    ensures Stands(image, at + from, part[from..from + n])
  {
    var before, after := image[..at], image[at + |part|..];
    assert image == before + part + after;
    PartOfThree(before, part, after, from, n);
  }

  lemma SameBytesStand(image: seq<Byte>, at: nat, part: seq<Byte>, from: nat, n: nat, bytes: seq<Byte>)
    requires Stands(image, at, part) && from + n <= |part| && part[from..from + n] == bytes
    ensures Stands(image, at + from, bytes)
  {
    hide *;
    PartStands(image, at, part, from, n);
  }

  lemma ItemStands(image: seq<Byte>, at: nat, items: seq<Item>, k: nat)
    requires k < |items| && Stands(image, at, Layout(items))
    ensures Stands(image, at + Start(items, k), ItemBytes(items[k]))
  {
    hide *;
    ItemAt(items, k);
    SameBytesStand(image, at, Layout(items), Start(items, k), Size(items[k]), ItemBytes(items[k]));
  }

  /** A number of the layout is the field at its place, wherever the layout stands in the image. */
  lemma NumAt(image: seq<Byte>, at: nat, items: seq<Item>, k: nat, place: nat, value: nat, width: nat)
    requires k < |items| && items[k] == Num(value, width) && value < Pow256(width)
    requires Stands(image, at, Layout(items)) && place == at + Start(items, k)
    ensures place + width <= |image| && Field(image, place, width) == value
  {
    hide Layout, Start, Stands, LittleEndian, FromLittleEndian, Pow256, Field;
    ItemStands(image, at, items, k);
    NumStands(image, place, value, width);
  }

  lemma NumStands(image: seq<Byte>, place: nat, value: nat, width: nat)
    requires value < Pow256(width) && Stands(image, place, LittleEndian(value, width))
    ensures place + width <= |image| && Field(image, place, width) == value
  {
    LittleEndianRoundTrip(value, width);
    hide LittleEndian, FromLittleEndian, Pow256;
  }

  lemma RawAt(image: seq<Byte>, at: nat, items: seq<Item>, k: nat, place: nat, bytes: seq<Byte>)
    requires k < |items| && items[k] == Raw(bytes)
    requires Stands(image, at, Layout(items)) && place == at + Start(items, k)
    ensures place + |bytes| <= |image| && image[place..place + |bytes|] == bytes
  {
    hide Layout, Start;
    ItemStands(image, at, items, k);
  }

  /** Rows of one size behind each other. */
  function Table(rows: seq<seq<Byte>>): seq<Byte> {
    Layout(RowItems(rows))
  }

  function RowItems(rows: seq<seq<Byte>>): seq<Item> {
    seq(|rows|, i requires 0 <= i < |rows| => Raw(rows[i]))
  }

  ghost predicate AllSized(rows: seq<seq<Byte>>, n: nat) {
    forall i :: 0 <= i < |rows| ==> |rows[i]| == n
  }

  lemma {:induction false} RowStart(rows: seq<seq<Byte>>, n: nat, i: nat)
    requires AllSized(rows, n) && i <= |rows|
    ensures Start(RowItems(rows), i) == n * i
  {
    if i > 0 {
      RowStart(rows, n, i - 1);
      assert n * i == n * (i - 1) + n;
    }
  }

  lemma TableLength(rows: seq<seq<Byte>>, n: nat)
    requires AllSized(rows, n)
    ensures |Table(rows)| == n * |rows|
  {
    var items := RowItems(rows);
    StartIsLength(items, |rows|);
    RowStart(rows, n, |rows|);
    assert items[..|rows|] == items;
  }

  lemma RowAt(rows: seq<seq<Byte>>, n: nat, i: nat)
    requires AllSized(rows, n) && i < |rows|
    ensures n * i + n <= |Table(rows)| && Table(rows)[n * i..n * i + n] == rows[i]
  {
    RowStart(rows, n, i);
    ItemAt(RowItems(rows), i);
  }

  /** A row of the table stands in its place behind what comes before the table. */
  lemma RowIn(front: seq<Byte>, rows: seq<seq<Byte>>, tail: seq<Byte>, n: nat, i: nat)
    requires AllSized(rows, n) && i < |rows|
    ensures Stands(front + Table(rows) + tail, |front| + n * i, rows[i])
  {
    hide Table, Stands, AllSized;
    RowAt(rows, n, i);
    SizedRow(rows, n, i);
    MiddleStands(front, Table(rows), tail, n * i, n);
  }

  lemma SizedRow(rows: seq<seq<Byte>>, n: nat, i: nat)
    requires AllSized(rows, n) && i < |rows|
    ensures |rows[i]| == n
  {
  }

  lemma MiddleStands(a: seq<Byte>, b: seq<Byte>, c: seq<Byte>, from: nat, n: nat)
    requires from + n <= |b|
    ensures Stands(a + b + c, |a| + from, b[from..from + n])
  {
    PartOfThree(a, b, c, from, n);
  }

  lemma FrontOfThree(a: seq<Byte>, b: seq<Byte>, c: seq<Byte>)
    ensures Stands(a + b + c, 0, a) && |a + b + c| == |a| + |b| + |c|
  {
  }

  lemma PartOfThree(a: seq<Byte>, b: seq<Byte>, c: seq<Byte>, from: nat, n: nat)
    requires from + n <= |b|
    ensures (a + b + c)[|a| + from..|a| + from + n] == b[from..from + n]
  {
  }

  // ----- bits

  /** A number with a bit put into it shows that bit. */
  lemma BitMeaning(low: nat, bit: bool, weight: nat, high: nat)
    requires low < weight
    ensures HasBit(low + (if bit then weight else 0) + 2 * weight * high, weight) <==> bit
  {
    var n, q := low + (if bit then weight else 0) + 2 * weight * high, (if bit then 1 else 0) + 2 * high;
    assert n == q * weight + low by {
      assert (2 * high) * weight == 2 * weight * high;
      assert ((if bit then 1 else 0) + 2 * high) * weight == (if bit then 1 else 0) * weight + (2 * high) * weight;
    }
    QuotientOf(n, q, weight, low);
  }

  lemma QuotientOf(n: nat, q: nat, d: nat, r: nat)
    requires d > 0 && n == q * d + r && r < d
    ensures n / d == q
  {
    QuotientFits(n, d, q);
    QuotientFits(n, d, q + 1);
    Commutes(d, q);
    Distributes(d, q, 1);
    Units(d);
  }
}
