/**
 Data declarations (asm/aasm-statement.cpp, `DataItemSize` and the emission loop of `ProcessCommonStatement`).

 A data statement is sized from its items in every pass and written in the last one. What the output format receives is
 the writes one after the other, without their offsets; so the labels that follow are right only if what is written is
 as long as what was counted.
 */
module DataEmission {
  import opened Common
  import opened LittleEndian
  import opened Powers

  /** A number is `relocated` when it has a section or a WRT part; an item in error is `Nothing`. */
  datatype Item = Nothing | Number(value: Word, relocated: bool) | Text(bytes: seq<Byte>)

  /** Bytes, or an address for the output format to fill in; each with the offset it is listed at. */
  datatype Write = Raw(at: int, bytes: seq<Byte>) | Fixup(at: int, addend: Word, size: nat)

  /** One byte of output: known, or the k-th of an address. */
  datatype Cell = Octet(byte: Byte) | Address(addend: Word, size: nat, k: nat)

  // ---------- What a statement stands for ----------

  /** How far a text is from a whole number of units. */
  function Padding(length: nat, width: nat): nat
    requires width > 0
  {
    var rest := length % width;
    if rest == 0 then 0 else width - rest
  }

  /** `DataItemSize` */
  function ItemSize(item: Item, width: nat): nat
    requires width > 0
  {
    match item
    case Nothing => 0
    case Number(_, _) => width
    case Text(bytes) => |bytes| + Padding(|bytes|, width)
  }

  function SingleSize(items: seq<Item>, width: nat): nat
    requires width > 0
  {
    if items == [] then 0 else ItemSize(items[0], width) + SingleSize(items[1..], width)
  }

  /** A text takes the least whole number of units that holds it. */
  lemma PaddedSize(bytes: seq<Byte>, width: nat, units: nat)
    requires width > 0
    ensures ItemSize(Text(bytes), width) % width == 0
    ensures |bytes| <= units * width ==> ItemSize(Text(bytes), width) <= units * width
  {
    var count := WholeUnits(|bytes|, width);
    DivideBy(count * width, width, count, 0);
    if count <= units {
      Scale(count, units, width);
    } else {
      Scale(units, count - 1, width);
    }
  }

  lemma WholeUnits(n: nat, width: nat) returns (count: nat)
    requires width > 0
    ensures n + Padding(n, width) == count * width && (count > 0 ==> (count - 1) * width < n)
  {
    var whole, rest := n / width, n % width;
    DividedIsSmaller(n, width);
    assert n == whole * width + rest;
    Distribute(whole, 1, width);
    Distribute(whole, -1, width);
    count := if rest == 0 then whole else whole + 1;
  }

  /** An integer that the source reports and does not write: a one-byte address, or one in units above 64 bits. */
  predicate Refused(item: Item, width: nat) {
    item.Number? && ((width == 1 && item.relocated) || width > 8)
  }

  function Octets(s: seq<Byte>): (r: seq<Cell>)
    ensures |r| == |s| && forall i :: 0 <= i < |s| ==> r[i] == Octet(s[i])
  {
    seq(|s|, i requires 0 <= i < |s| => Octet(s[i]))
  }

  function Addresses(addend: Word, size: nat): (r: seq<Cell>)
    ensures |r| == size
  {
    seq(size, k requires 0 <= k < size => Address(addend, size, k))
  }

  function ItemImage(item: Item, width: nat): seq<Cell>
    requires width > 0
  {
    match item
    case Nothing => []
    case Number(value, relocated) =>
      if Refused(item, width) then [] else if relocated then Addresses(value, width) else Octets(Little(value, width))
    case Text(bytes) => Octets(bytes + seq(Padding(|bytes|, width), _ => 0))
  }

  function Image(items: seq<Item>, width: nat): seq<Cell>
    requires width > 0
  {
    if items == [] then [] else ItemImage(items[0], width) + Image(items[1..], width)
  }

  /** The whole of it, as often as TIMES says; not at all for a negative count. */
  function Times(image: seq<Cell>, repeat: int): seq<Cell>
    decreases repeat
  {
    if repeat <= 0 then [] else Times(image, repeat - 1) + image
  }

  // ---------- Counted and written ----------

  function RefusedCount(items: seq<Item>, width: nat): nat {
    if items == [] then 0 else (if Refused(items[0], width) then 1 else 0) + RefusedCount(items[1..], width)
  }

  lemma OneItem(item: Item, width: nat)
    requires width > 0
    ensures |ItemImage(item, width)| == if Refused(item, width) then 0 else ItemSize(item, width)
    ensures Refused(item, width) ==> ItemSize(item, width) == width
  {
  }

  lemma {:induction false} ImageSize(items: seq<Item>, width: nat)
    requires width > 0
    ensures |Image(items, width)| + width * RefusedCount(items, width) == SingleSize(items, width)
  {
    hide ItemImage, ItemSize, Refused;
    if items != [] {
      ImageSize(items[1..], width);
      OneItem(items[0], width);
      var c := RefusedCount(items[1..], width);
      Distribute(c, 1, width);
      Commute(c, width);
      Commute(c + 1, width);
    }
  }

  lemma {:induction false} TimesSize(image: seq<Cell>, repeat: int)
    ensures |Times(image, repeat)| == if repeat <= 0 then 0 else repeat * |image|
    decreases repeat
  {
    if repeat > 0 {
      TimesSize(image, repeat - 1);
      assert repeat * |image| == (repeat - 1) * |image| + |image|;
    }
  }

  /** `result.size` */
  function StatementSize(items: seq<Item>, width: nat, repeat: int): int
    requires width > 0
  {
    repeat * SingleSize(items, width)
  }

  /** As much is written as was counted exactly when the count is not negative and no item is refused, or nothing is
      counted. */
  lemma WrittenIsCounted(items: seq<Item>, width: nat, repeat: int)
    requires width > 0
    ensures |Times(Image(items, width), repeat)| == StatementSize(items, width, repeat) <==>
      StatementSize(items, width, repeat) == 0 || (repeat > 0 && RefusedCount(items, width) == 0)
  {
    ImageSize(items, width);
    TimesSize(Image(items, width), repeat);
    hide Image, SingleSize, RefusedCount;
    var n, size, c := |Image(items, width)|, SingleSize(items, width), RefusedCount(items, width);
    if repeat > 0 {
      Compare(n, size, c, width, repeat);
    } else {
      Scale(repeat, 0, size);
    }
  }

  /** An integer in data wider than 64 bits is counted and not written. */
  lemma WideIntegerIsNotWritten(value: Word, relocated: bool)
    ensures StatementSize([Number(value, relocated)], 10, 1) == 10
    ensures Times(Image([Number(value, relocated)], 10), 1) == []
  {
    var item := Number(value, relocated);
    var items := [item];
    assert items[1..] == [] && Image([], 10) == [] && SingleSize([], 10) == 0;
    assert ItemImage(item, 10) == [] && ItemSize(item, 10) == 10;
    assert Image(items, 10) == ItemImage(items[0], 10) + Image(items[1..], 10);
    NoTimes([]);
    OneMoreTime([], 0);
  }

  lemma Compare(n: nat, size: nat, c: nat, width: nat, repeat: int)
    requires width > 0 && repeat > 0 && n + width * c == size
    ensures repeat * n == repeat * size <==> c == 0
    ensures repeat * size == 0 ==> c == 0
  {
    Commute(repeat, n);
    Commute(repeat, size);
    Distribute(n, width * c, repeat);
    NotNegative(n, repeat);
    if c > 0 {
      Scale(1, c, width);
      Commute(c, width);
      Scale(1, width * c, repeat);
    } else {
      Commute(width, c);
    }
  }

  // ---------- The emission loop ----------

  function CellsOf(w: Write): seq<Cell> {
    match w
    case Raw(_, bytes) => Octets(bytes)
    case Fixup(_, addend, size) => Addresses(addend, size)
  }

  function Cells(log: seq<Write>): seq<Cell> {
    if log == [] then [] else Cells(log[..|log| - 1]) + CellsOf(log[|log| - 1])
  }

  /** Every write is listed at the place it gets. */
  ghost predicate Listed(log: seq<Write>, start: int) {
    forall i :: 0 <= i < |log| ==> log[i].at == start + |Cells(log[..i])|
  }

  lemma OneMoreWrite(log: seq<Write>, w: Write, start: int)
    ensures Cells(log + [w]) == Cells(log) + CellsOf(w)
    ensures Listed(log, start) && w.at == start + |Cells(log)| ==> Listed(log + [w], start)
  {
    var all := log + [w];
    assert all[..|log|] == log;
    assert forall i :: 0 <= i < |log| ==> all[..i] == log[..i];
  }

  method Bytes(value: Word, width: nat) returns (bytes: seq<Byte>)
    ensures bytes == Little(value, width)
  {
    bytes := [];
    var v, s := value, width;
    while s > 0
      invariant bytes + Little(v, s) == Little(value, width)
    {
      bytes := bytes + [v % 256];
      v := v / 256;
      s := s - 1;
    }
  }

  /** One item: the writes it makes and the offset after it. */
  method EmitItem(item: Item, width: nat, log: seq<Write>, offset: int, ghost start: int)
    returns (log': seq<Write>, offset': int)
    requires width > 0
    ensures Cells(log') == Cells(log) + ItemImage(item, width)
    ensures offset' == offset + ItemSize(item, width)
    ensures Listed(log, start) && offset == start + |Cells(log)| ==> Listed(log', start)
  {
    hide Cells, Listed, Octets, Addresses, Little;
    log', offset' := log, offset;
    match item
    case Nothing =>
    case Number(value, relocated) =>
      if !((width == 1 && relocated) || width > 8) {
        log' := EmitNumber(value, relocated, width, log, offset, start);
      }
      offset' := offset + width;
    case Text(bytes) =>
      log', offset' := EmitText(bytes, width, log, offset, start);
  }

  method EmitNumber(value: Word, relocated: bool, width: nat, log: seq<Write>, offset: int, ghost start: int)
    returns (log': seq<Write>)
    ensures Cells(log') == Cells(log) + if relocated then Addresses(value, width) else Octets(Little(value, width))
    ensures Listed(log, start) && offset == start + |Cells(log)| ==> Listed(log', start)
  {
    hide Cells, Listed, Octets, Addresses, Little;
    var w;
    if relocated {
      w := Fixup(offset, value, width);
    } else {
      var bytes := Bytes(value, width);
      w := Raw(offset, bytes);
    }
    OneMoreWrite(log, w, start);
    log' := log + [w];
  }

  method EmitText(bytes: seq<Byte>, width: nat, log: seq<Write>, offset: int, ghost start: int)
    returns (log': seq<Write>, offset': int)
    requires width > 0
    ensures Cells(log') == Cells(log) + Octets(bytes + seq(Padding(|bytes|, width), _ => 0))
    ensures offset' == offset + |bytes| + Padding(|bytes|, width)
    ensures Listed(log, start) && offset == start + |Cells(log)| ==> Listed(log', start)
  {
    hide Cells, Listed, Octets;
    log' := log + [Raw(offset, bytes)];
    OneMoreWrite(log, Raw(offset, bytes), start);
    var padding := |bytes| % width;
    if padding > 0 {
      padding := width - padding;
      var zeros := seq(padding, _ => 0);
      OneMoreWrite(log', Raw(offset + |bytes|, zeros), start);
      log' := log' + [Raw(offset + |bytes|, zeros)];
    }
    offset' := offset + |bytes| + padding;
    TwoParts(log, log', bytes, padding);
  }

  lemma TwoParts(log: seq<Write>, log': seq<Write>, bytes: seq<Byte>, padding: nat)
    requires Cells(log') == Cells(log) + Octets(bytes) + (if padding > 0 then Octets(seq(padding, _ => 0)) else [])
    ensures Cells(log') == Cells(log) + Octets(bytes + seq(padding, _ => 0))
  {
    assert Octets(bytes) + Octets(seq(padding, _ => 0)) == Octets(bytes + seq(padding, _ => 0));
  }

  /** The items once. */
  method EmitOnce(items: seq<Item>, width: nat, log: seq<Write>, offset: int, ghost start: int)
    returns (log': seq<Write>, offset': int)
    requires width > 0
    ensures Cells(log') == Cells(log) + Image(items, width)
    ensures offset' == offset + SingleSize(items, width)
    ensures Listed(log, start) && offset == start + |Cells(log)| && RefusedCount(items, width) == 0 ==>
      Listed(log', start)
  {
    hide ItemImage, ItemSize, Refused, Cells, Listed;
    log', offset' := log, offset;
    var i := 0;
    assert items[0..] == items;
    ghost var rest := items;
    while i < |items|
      invariant i <= |items| && rest == items[i..]
      invariant Cells(log') + Image(rest, width) == Cells(log) + Image(items, width)
      invariant offset' + SingleSize(rest, width) == offset + SingleSize(items, width)
      invariant RefusedCount(items, width) == 0 ==> RefusedCount(rest, width) == 0
      invariant Listed(log, start) && offset == start + |Cells(log)| && RefusedCount(items, width) == 0 ==>
        Listed(log', start) && offset' == start + |Cells(log')|
    {
      assert rest[0] == items[i] && rest[1..] == items[i + 1..];
      OneItem(items[i], width);
      ghost var before := Cells(log');
      log', offset' := EmitItem(items[i], width, log', offset', start);
      assert before + (ItemImage(items[i], width) + Image(rest[1..], width)) == Cells(log') + Image(rest[1..], width);
      rest := rest[1..];
      i := i + 1;
    }
  }

  lemma NothingEmitted(start: int)
    ensures Cells([]) == [] && Listed([], start)
  {
  }

  lemma NoTimes(image: seq<Cell>)
    ensures forall repeat :: repeat <= 0 ==> Times(image, repeat) == []
  {
  }

  lemma OneMoreTime(image: seq<Cell>, repeat: nat)
    ensures Times(image, repeat + 1) == Times(image, repeat) + image
  {
  }

  lemma NothingRefused(items: seq<Item>, width: nat)
    requires width > 0
    ensures RefusedCount(items, width) == 0 ==> |Image(items, width)| == SingleSize(items, width)
  {
    hide Image, SingleSize, RefusedCount;
    ImageSize(items, width);
    Commute(width, 0);
  }

  lemma SizeIs(items: seq<Item>, width: nat, repeat: int)
    requires width > 0
    ensures StatementSize(items, width, repeat) == repeat * SingleSize(items, width)
  {
  }

  /** The loop over TIMES: what goes out is the statement's image, and without refused items each write is listed at
      its true place. */
  method EmitAll(items: seq<Item>, width: nat, repeat: int, start: int) returns (log: seq<Write>, end: int)
    requires width > 0
    ensures Cells(log) == Times(Image(items, width), repeat)
    ensures repeat >= 0 ==> end == start + StatementSize(items, width, repeat)
    ensures repeat < 0 ==> end == start
    ensures RefusedCount(items, width) == 0 ==> Listed(log, start)
  {
    hide Image, SingleSize, RefusedCount, Cells, Listed, Times, StatementSize;
    log, end := [], start;
    NothingEmitted(start);
    NoTimes(Image(items, width));
    var iteration := 0;
    ghost var single, offset := SingleSize(items, width), 0;
    ImageSize(items, width);
    while iteration < repeat
      invariant 0 <= iteration && (iteration <= repeat || iteration == 0)
      invariant Cells(log) == Times(Image(items, width), iteration)
      invariant end == start + offset && offset == iteration * single
      invariant RefusedCount(items, width) == 0 ==> Listed(log, start) && end == start + |Cells(log)|
    {
      log, end := EmitOnce(items, width, log, end, start);
      Distribute(iteration, 1, single);
      OneMoreTime(Image(items, width), iteration);
      NothingRefused(items, width);
      iteration, offset := iteration + 1, offset + single;
    }
    SizeIs(items, width, repeat);
  }
}
