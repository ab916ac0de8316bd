/** The versions of a QR code and their block tables (ISO/IEC 18004:2015, section 7.5.1). */
module QrVersions {
  // The table as the encoder has it, the choice of the smallest version that holds the data, and the
  // whole way from segments to a data URL and back for every version and level.

  import opened Wrappers
  import Bits
  import Gf256
  import GifImages
  import Segments
  import opened QrBuffer
  import opened QrData
  import opened QrBlocks
  import opened QrPlacement
  import opened QrSymbol
  import opened QrImages

  datatype Level = L | M | Q | H

  /** `count` blocks alike. */
  datatype Group = Group(count: nat, totalCount: nat, dataCount: nat)

  datatype Row = Row(l: seq<Group>, m: seq<Group>, q: seq<Group>, h: seq<Group>)

  // ---- The table ------------------------------------------------------------------------------

  function Rows1(version: int): Row
    requires 1 <= version <= 10
  {
    match version
    case 1 => Row([Group(1, 26, 19)], [Group(1, 26, 16)], [Group(1, 26, 13)], [Group(1, 26, 9)])
    case 2 => Row([Group(1, 44, 34)], [Group(1, 44, 28)], [Group(1, 44, 22)], [Group(1, 44, 16)])
    case 3 => Row([Group(1, 70, 55)], [Group(1, 70, 44)], [Group(2, 35, 17)], [Group(2, 35, 13)])
    case 4 => Row([Group(1, 100, 80)], [Group(2, 50, 32)], [Group(2, 50, 24)], [Group(4, 25, 9)])
    case 5 => Row([Group(1, 134, 108)], [Group(2, 67, 43)], [Group(2, 33, 15), Group(2, 34, 16)], [Group(2, 33, 11), Group(2, 34, 12)])
    case 6 => Row([Group(2, 86, 68)], [Group(4, 43, 27)], [Group(4, 43, 19)], [Group(4, 43, 15)])
    case 7 => Row([Group(2, 98, 78)], [Group(4, 49, 31)], [Group(2, 32, 14), Group(4, 33, 15)], [Group(4, 39, 13), Group(1, 40, 14)])
    case 8 => Row([Group(2, 121, 97)], [Group(2, 60, 38), Group(2, 61, 39)], [Group(4, 40, 18), Group(2, 41, 19)], [Group(4, 40, 14), Group(2, 41, 15)])
    case 9 => Row([Group(2, 146, 116)], [Group(3, 58, 36), Group(2, 59, 37)], [Group(4, 36, 16), Group(4, 37, 17)], [Group(4, 36, 12), Group(4, 37, 13)])
    case _ => Row([Group(2, 86, 68), Group(2, 87, 69)], [Group(4, 69, 43), Group(1, 70, 44)], [Group(6, 43, 19), Group(2, 44, 20)], [Group(6, 43, 15), Group(2, 44, 16)])
  }

  function Rows11(version: int): Row
    requires 11 <= version <= 20
  {
    match version
    case 11 => Row([Group(4, 101, 81)], [Group(1, 80, 50), Group(4, 81, 51)], [Group(4, 50, 22), Group(4, 51, 23)], [Group(3, 36, 12), Group(8, 37, 13)])
    case 12 => Row([Group(2, 116, 92), Group(2, 117, 93)], [Group(6, 58, 36), Group(2, 59, 37)], [Group(4, 46, 20), Group(6, 47, 21)], [Group(7, 42, 14), Group(4, 43, 15)])
    case 13 => Row([Group(4, 133, 107)], [Group(8, 59, 37), Group(1, 60, 38)], [Group(8, 44, 20), Group(4, 45, 21)], [Group(12, 33, 11), Group(4, 34, 12)])
    case 14 => Row([Group(3, 145, 115), Group(1, 146, 116)], [Group(4, 64, 40), Group(5, 65, 41)], [Group(11, 36, 16), Group(5, 37, 17)], [Group(11, 36, 12), Group(5, 37, 13)])
    case 15 => Row([Group(5, 109, 87), Group(1, 110, 88)], [Group(5, 65, 41), Group(5, 66, 42)], [Group(5, 54, 24), Group(7, 55, 25)], [Group(11, 36, 12), Group(7, 37, 13)])
    case 16 => Row([Group(5, 122, 98), Group(1, 123, 99)], [Group(7, 73, 45), Group(3, 74, 46)], [Group(15, 43, 19), Group(2, 44, 20)], [Group(3, 45, 15), Group(13, 46, 16)])
    case 17 => Row([Group(1, 135, 107), Group(5, 136, 108)], [Group(10, 74, 46), Group(1, 75, 47)], [Group(1, 50, 22), Group(15, 51, 23)], [Group(2, 42, 14), Group(17, 43, 15)])
    case 18 => Row([Group(5, 150, 120), Group(1, 151, 121)], [Group(9, 69, 43), Group(4, 70, 44)], [Group(17, 50, 22), Group(1, 51, 23)], [Group(2, 42, 14), Group(19, 43, 15)])
    case 19 => Row([Group(3, 141, 113), Group(4, 142, 114)], [Group(3, 70, 44), Group(11, 71, 45)], [Group(17, 47, 21), Group(4, 48, 22)], [Group(9, 39, 13), Group(16, 40, 14)])
    case _ => Row([Group(3, 135, 107), Group(5, 136, 108)], [Group(3, 67, 41), Group(13, 68, 42)], [Group(15, 54, 24), Group(5, 55, 25)], [Group(15, 43, 15), Group(10, 44, 16)])
  }

  function Rows21(version: int): Row
    requires 21 <= version <= 30
  {
    match version
    case 21 => Row([Group(4, 144, 116), Group(4, 145, 117)], [Group(17, 68, 42)], [Group(17, 50, 22), Group(6, 51, 23)], [Group(19, 46, 16), Group(6, 47, 17)])
    case 22 => Row([Group(2, 139, 111), Group(7, 140, 112)], [Group(17, 74, 46)], [Group(7, 54, 24), Group(16, 55, 25)], [Group(34, 37, 13)])
    case 23 => Row([Group(4, 151, 121), Group(5, 152, 122)], [Group(4, 75, 47), Group(14, 76, 48)], [Group(11, 54, 24), Group(14, 55, 25)], [Group(16, 45, 15), Group(14, 46, 16)])
    case 24 => Row([Group(6, 147, 117), Group(4, 148, 118)], [Group(6, 73, 45), Group(14, 74, 46)], [Group(11, 54, 24), Group(16, 55, 25)], [Group(30, 46, 16), Group(2, 47, 17)])
    case 25 => Row([Group(8, 132, 106), Group(4, 133, 107)], [Group(8, 75, 47), Group(13, 76, 48)], [Group(7, 54, 24), Group(22, 55, 25)], [Group(22, 45, 15), Group(13, 46, 16)])
    case 26 => Row([Group(10, 142, 114), Group(2, 143, 115)], [Group(19, 74, 46), Group(4, 75, 47)], [Group(28, 50, 22), Group(6, 51, 23)], [Group(33, 46, 16), Group(4, 47, 17)])
    case 27 => Row([Group(8, 152, 122), Group(4, 153, 123)], [Group(22, 73, 45), Group(3, 74, 46)], [Group(8, 53, 23), Group(26, 54, 24)], [Group(12, 45, 15), Group(28, 46, 16)])
    case 28 => Row([Group(3, 147, 117), Group(10, 148, 118)], [Group(3, 73, 45), Group(23, 74, 46)], [Group(4, 54, 24), Group(31, 55, 25)], [Group(11, 45, 15), Group(31, 46, 16)])
    case 29 => Row([Group(7, 146, 116), Group(7, 147, 117)], [Group(21, 73, 45), Group(7, 74, 46)], [Group(1, 53, 23), Group(37, 54, 24)], [Group(19, 45, 15), Group(26, 46, 16)])
    case _ => Row([Group(5, 145, 115), Group(10, 146, 116)], [Group(19, 75, 47), Group(10, 76, 48)], [Group(15, 54, 24), Group(25, 55, 25)], [Group(23, 45, 15), Group(25, 46, 16)])
  }

  function Rows31(version: int): Row
    requires 31 <= version <= 40
  {
    match version
    case 31 => Row([Group(13, 145, 115), Group(3, 146, 116)], [Group(2, 74, 46), Group(29, 75, 47)], [Group(42, 54, 24), Group(1, 55, 25)], [Group(23, 45, 15), Group(28, 46, 16)])
    case 32 => Row([Group(17, 145, 115)], [Group(10, 74, 46), Group(23, 75, 47)], [Group(10, 54, 24), Group(35, 55, 25)], [Group(19, 45, 15), Group(35, 46, 16)])
    case 33 => Row([Group(17, 145, 115), Group(1, 146, 116)], [Group(14, 74, 46), Group(21, 75, 47)], [Group(29, 54, 24), Group(19, 55, 25)], [Group(11, 45, 15), Group(46, 46, 16)])
    case 34 => Row([Group(13, 145, 115), Group(6, 146, 116)], [Group(14, 74, 46), Group(23, 75, 47)], [Group(44, 54, 24), Group(7, 55, 25)], [Group(59, 46, 16), Group(1, 47, 17)])
    case 35 => Row([Group(12, 151, 121), Group(7, 152, 122)], [Group(12, 75, 47), Group(26, 76, 48)], [Group(39, 54, 24), Group(14, 55, 25)], [Group(22, 45, 15), Group(41, 46, 16)])
    case 36 => Row([Group(6, 151, 121), Group(14, 152, 122)], [Group(6, 75, 47), Group(34, 76, 48)], [Group(46, 54, 24), Group(10, 55, 25)], [Group(2, 45, 15), Group(64, 46, 16)])
    case 37 => Row([Group(17, 152, 122), Group(4, 153, 123)], [Group(29, 74, 46), Group(14, 75, 47)], [Group(49, 54, 24), Group(10, 55, 25)], [Group(24, 45, 15), Group(46, 46, 16)])
    case 38 => Row([Group(4, 152, 122), Group(18, 153, 123)], [Group(13, 74, 46), Group(32, 75, 47)], [Group(48, 54, 24), Group(14, 55, 25)], [Group(42, 45, 15), Group(32, 46, 16)])
    case 39 => Row([Group(20, 147, 117), Group(4, 148, 118)], [Group(40, 75, 47), Group(7, 76, 48)], [Group(43, 54, 24), Group(22, 55, 25)], [Group(10, 45, 15), Group(67, 46, 16)])
    case _ => Row([Group(19, 148, 118), Group(6, 149, 119)], [Group(18, 75, 47), Group(31, 76, 48)], [Group(34, 54, 24), Group(34, 55, 25)], [Group(20, 45, 15), Group(61, 46, 16)])
  }

  function RowAt(version: int): Row
    requires 1 <= version <= 40
  {
    if version <= 10 then Rows1(version)
    else if version <= 20 then Rows11(version)
    else if version <= 30 then Rows21(version)
    else Rows31(version)
  }

  function Groups(row: Row, level: Level): seq<Group> {
    match level case L => row.l case M => row.m case Q => row.q case H => row.h
  }

  function Repeat(count: nat, block: RsBlock): (blocks: seq<RsBlock>)
    ensures |blocks| == count
  {
    seq(count, _ => block)
  }

  /** The blocks of a row, group by group. */
  function Expand(groups: seq<Group>): seq<RsBlock> {
    if groups == [] then [] else
      var last := groups[|groups| - 1];
      Expand(groups[..|groups| - 1]) + Repeat(last.count, RsBlock(last.totalCount, last.dataCount))
  }

  /** The blocks of a version; None is the exception for a version out of range. */
  function Blocks(version: int, level: Level): Option<seq<RsBlock>> {
    if 1 <= version <= 40 then Some(Expand(Groups(RowAt(version), level))) else None
  }

  method GetRsBlocks(version: int, level: Level) returns (r: Option<seq<RsBlock>>)
    ensures r == Blocks(version, level)
  {
    hide RowAt, Repeat;
    if !(1 <= version <= 40) { return None; }
    var groups := Groups(RowAt(version), level);
    var list: seq<RsBlock> := [];
    var i := 0;
    while i < |groups|
      invariant 0 <= i <= |groups| && list == Expand(groups[..i])
    {
      var g := groups[i];
      ghost var before := list;
      var j := 0;
      while j < g.count
        invariant j <= g.count && list == before + Repeat(j, RsBlock(g.totalCount, g.dataCount))
      {
        RepeatNext(j, RsBlock(g.totalCount, g.dataCount));
        Bits.Assoc(before, Repeat(j, RsBlock(g.totalCount, g.dataCount)), [RsBlock(g.totalCount, g.dataCount)]);
        list := list + [RsBlock(g.totalCount, g.dataCount)];
        j := j + 1;
      }
      assert groups[..i + 1][..i] == groups[..i];
      i := i + 1;
    }
    assert groups[..i] == groups;
    return Some(list);
  }

  lemma RepeatNext(count: nat, block: RsBlock)
    ensures Repeat(0, block) == []
    ensures Repeat(count + 1, block) == Repeat(count, block) + [block]
  {}

  // ---- What holds of every row ----------------------------------------------------------------

  /** Data codewords of a row. */
  function Capacity(groups: seq<Group>): nat {
    if groups == [] then 0 else
      var last := groups[|groups| - 1];
      Capacity(groups[..|groups| - 1]) + last.count * last.dataCount
  }

  /** All codewords of a row. */
  function Codewords(groups: seq<Group>): nat {
    if groups == [] then 0 else
      var last := groups[|groups| - 1];
      Codewords(groups[..|groups| - 1]) + last.count * last.totalCount
  }

  /** The modules the function patterns leave: all but three finders with their separators, the
      timing lines, the format bits with the fixed module, the version bits, and the alignment
      patterns, of which some share five modules with a timing line. */
  function DataModules(version: int): int {
    var side, a := version * 4 + 17, version / 7 + 2;
    side * side - 3 * 64 - 2 * (side - 16) - 31
      - (if version >= 7 then 36 else 0)
      - (if version >= 2 then (a * a - 3) * 25 - 2 * (a - 2) * 5 else 0)
  }

  predicate GoodGroup(g: Group) {
    g.dataCount <= g.totalCount <= g.dataCount + 30
  }

  predicate GoodGroups(groups: seq<Group>, version: int) {
    && (forall i :: 0 <= i < |groups| ==> GoodGroup(groups[i]))
    && Capacity(groups) <= MaxDataCodewords(version)
    && Codewords(groups) == DataModules(version) / 8
  }

  /** Every level leaves less room for data than the one before. */
  predicate GoodRow(row: Row, version: int) {
    && GoodGroups(row.l, version) && GoodGroups(row.m, version) && GoodGroups(row.q, version) && GoodGroups(row.h, version)
    && Capacity(row.l) > Capacity(row.m) > Capacity(row.q) > Capacity(row.h)
  }

  lemma CapacityOf(a: Group, b: Group)
    ensures Capacity([a]) == a.count * a.dataCount
    ensures Capacity([a, b]) == a.count * a.dataCount + b.count * b.dataCount
    ensures Codewords([a]) == a.count * a.totalCount
    ensures Codewords([a, b]) == a.count * a.totalCount + b.count * b.totalCount
  {
    assert [a][..0] == [] && [a, b][..1] == [a];
  }

  lemma GoodOne(a: Group, version: int)
    requires GoodGroup(a) && a.count * a.dataCount <= MaxDataCodewords(version)
    requires a.count * a.totalCount == DataModules(version) / 8
    ensures GoodGroups([a], version) && Capacity([a]) == a.count * a.dataCount
  {
    CapacityOf(a, a);
  }

  lemma GoodTwo(a: Group, b: Group, version: int)
    requires GoodGroup(a) && GoodGroup(b)
    requires a.count * a.dataCount + b.count * b.dataCount <= MaxDataCodewords(version)
    requires a.count * a.totalCount + b.count * b.totalCount == DataModules(version) / 8
    ensures GoodGroups([a, b], version) && Capacity([a, b]) == a.count * a.dataCount + b.count * b.dataCount
  {
    CapacityOf(a, b);
  }

  lemma Words1()
    ensures DataModules(1) / 8 == 26 && DataModules(2) / 8 == 44
    ensures DataModules(3) / 8 == 70 && DataModules(4) / 8 == 100
    ensures DataModules(5) / 8 == 134 && DataModules(6) / 8 == 172
    ensures DataModules(7) / 8 == 196 && DataModules(8) / 8 == 242
    ensures DataModules(9) / 8 == 292 && DataModules(10) / 8 == 346
  {}

  lemma Good1(version: int)
    requires 1 <= version <= 5
    ensures GoodRow(Rows1(version), version)
  {
    hide GoodGroups, DataModules, Capacity;
    Words1();
    match version
    case 1 =>
      GoodOne(Group(1, 26, 19), 1);
      GoodOne(Group(1, 26, 16), 1);
      GoodOne(Group(1, 26, 13), 1);
      GoodOne(Group(1, 26, 9), 1);
    case 2 =>
      GoodOne(Group(1, 44, 34), 2);
      GoodOne(Group(1, 44, 28), 2);
      GoodOne(Group(1, 44, 22), 2);
      GoodOne(Group(1, 44, 16), 2);
    case 3 =>
      GoodOne(Group(1, 70, 55), 3);
      GoodOne(Group(1, 70, 44), 3);
      GoodOne(Group(2, 35, 17), 3);
      GoodOne(Group(2, 35, 13), 3);
    case 4 =>
      GoodOne(Group(1, 100, 80), 4);
      GoodOne(Group(2, 50, 32), 4);
      GoodOne(Group(2, 50, 24), 4);
      GoodOne(Group(4, 25, 9), 4);
    case _ =>
      GoodOne(Group(1, 134, 108), 5);
      GoodOne(Group(2, 67, 43), 5);
      GoodTwo(Group(2, 33, 15), Group(2, 34, 16), 5);
      GoodTwo(Group(2, 33, 11), Group(2, 34, 12), 5);
  }

  lemma Good6(version: int)
    requires 6 <= version <= 10
    ensures GoodRow(Rows1(version), version)
  {
    hide GoodGroups, DataModules, Capacity;
    Words1();
    match version
    case 6 =>
      GoodOne(Group(2, 86, 68), 6);
      GoodOne(Group(4, 43, 27), 6);
      GoodOne(Group(4, 43, 19), 6);
      GoodOne(Group(4, 43, 15), 6);
    case 7 =>
      GoodOne(Group(2, 98, 78), 7);
      GoodOne(Group(4, 49, 31), 7);
      GoodTwo(Group(2, 32, 14), Group(4, 33, 15), 7);
      GoodTwo(Group(4, 39, 13), Group(1, 40, 14), 7);
    case 8 =>
      GoodOne(Group(2, 121, 97), 8);
      GoodTwo(Group(2, 60, 38), Group(2, 61, 39), 8);
      GoodTwo(Group(4, 40, 18), Group(2, 41, 19), 8);
      GoodTwo(Group(4, 40, 14), Group(2, 41, 15), 8);
    case 9 =>
      GoodOne(Group(2, 146, 116), 9);
      GoodTwo(Group(3, 58, 36), Group(2, 59, 37), 9);
      GoodTwo(Group(4, 36, 16), Group(4, 37, 17), 9);
      GoodTwo(Group(4, 36, 12), Group(4, 37, 13), 9);
    case _ =>
      GoodTwo(Group(2, 86, 68), Group(2, 87, 69), 10);
      GoodTwo(Group(4, 69, 43), Group(1, 70, 44), 10);
      GoodTwo(Group(6, 43, 19), Group(2, 44, 20), 10);
      GoodTwo(Group(6, 43, 15), Group(2, 44, 16), 10);
  }

  lemma Words11()
    ensures DataModules(11) / 8 == 404 && DataModules(12) / 8 == 466
    ensures DataModules(13) / 8 == 532 && DataModules(14) / 8 == 581
    ensures DataModules(15) / 8 == 655 && DataModules(16) / 8 == 733
    ensures DataModules(17) / 8 == 815 && DataModules(18) / 8 == 901
    ensures DataModules(19) / 8 == 991 && DataModules(20) / 8 == 1085
  {}

  lemma Good11(version: int)
    requires 11 <= version <= 15
    ensures GoodRow(Rows11(version), version)
  {
    hide GoodGroups, DataModules, Capacity;
    Words11();
    match version
    case 11 =>
      GoodOne(Group(4, 101, 81), 11);
      GoodTwo(Group(1, 80, 50), Group(4, 81, 51), 11);
      GoodTwo(Group(4, 50, 22), Group(4, 51, 23), 11);
      GoodTwo(Group(3, 36, 12), Group(8, 37, 13), 11);
    case 12 =>
      GoodTwo(Group(2, 116, 92), Group(2, 117, 93), 12);
      GoodTwo(Group(6, 58, 36), Group(2, 59, 37), 12);
      GoodTwo(Group(4, 46, 20), Group(6, 47, 21), 12);
      GoodTwo(Group(7, 42, 14), Group(4, 43, 15), 12);
    case 13 =>
      GoodOne(Group(4, 133, 107), 13);
      GoodTwo(Group(8, 59, 37), Group(1, 60, 38), 13);
      GoodTwo(Group(8, 44, 20), Group(4, 45, 21), 13);
      GoodTwo(Group(12, 33, 11), Group(4, 34, 12), 13);
    case 14 =>
      GoodTwo(Group(3, 145, 115), Group(1, 146, 116), 14);
      GoodTwo(Group(4, 64, 40), Group(5, 65, 41), 14);
      GoodTwo(Group(11, 36, 16), Group(5, 37, 17), 14);
      GoodTwo(Group(11, 36, 12), Group(5, 37, 13), 14);
    case _ =>
      GoodTwo(Group(5, 109, 87), Group(1, 110, 88), 15);
      GoodTwo(Group(5, 65, 41), Group(5, 66, 42), 15);
      GoodTwo(Group(5, 54, 24), Group(7, 55, 25), 15);
      GoodTwo(Group(11, 36, 12), Group(7, 37, 13), 15);
  }

  lemma Good16(version: int)
    requires 16 <= version <= 20
    ensures GoodRow(Rows11(version), version)
  {
    hide GoodGroups, DataModules, Capacity;
    Words11();
    match version
    case 16 =>
      GoodTwo(Group(5, 122, 98), Group(1, 123, 99), 16);
      GoodTwo(Group(7, 73, 45), Group(3, 74, 46), 16);
      GoodTwo(Group(15, 43, 19), Group(2, 44, 20), 16);
      GoodTwo(Group(3, 45, 15), Group(13, 46, 16), 16);
    case 17 =>
      GoodTwo(Group(1, 135, 107), Group(5, 136, 108), 17);
      GoodTwo(Group(10, 74, 46), Group(1, 75, 47), 17);
      GoodTwo(Group(1, 50, 22), Group(15, 51, 23), 17);
      GoodTwo(Group(2, 42, 14), Group(17, 43, 15), 17);
    case 18 =>
      GoodTwo(Group(5, 150, 120), Group(1, 151, 121), 18);
      GoodTwo(Group(9, 69, 43), Group(4, 70, 44), 18);
      GoodTwo(Group(17, 50, 22), Group(1, 51, 23), 18);
      GoodTwo(Group(2, 42, 14), Group(19, 43, 15), 18);
    case 19 =>
      GoodTwo(Group(3, 141, 113), Group(4, 142, 114), 19);
      GoodTwo(Group(3, 70, 44), Group(11, 71, 45), 19);
      GoodTwo(Group(17, 47, 21), Group(4, 48, 22), 19);
      GoodTwo(Group(9, 39, 13), Group(16, 40, 14), 19);
    case _ =>
      GoodTwo(Group(3, 135, 107), Group(5, 136, 108), 20);
      GoodTwo(Group(3, 67, 41), Group(13, 68, 42), 20);
      GoodTwo(Group(15, 54, 24), Group(5, 55, 25), 20);
      GoodTwo(Group(15, 43, 15), Group(10, 44, 16), 20);
  }

  lemma Words21()
    ensures DataModules(21) / 8 == 1156 && DataModules(22) / 8 == 1258
    ensures DataModules(23) / 8 == 1364 && DataModules(24) / 8 == 1474
    ensures DataModules(25) / 8 == 1588 && DataModules(26) / 8 == 1706
    ensures DataModules(27) / 8 == 1828 && DataModules(28) / 8 == 1921
    ensures DataModules(29) / 8 == 2051 && DataModules(30) / 8 == 2185
  {}

  lemma Good21(version: int)
    requires 21 <= version <= 25
    ensures GoodRow(Rows21(version), version)
  {
    hide GoodGroups, DataModules, Capacity;
    Words21();
    match version
    case 21 =>
      GoodTwo(Group(4, 144, 116), Group(4, 145, 117), 21);
      GoodOne(Group(17, 68, 42), 21);
      GoodTwo(Group(17, 50, 22), Group(6, 51, 23), 21);
      GoodTwo(Group(19, 46, 16), Group(6, 47, 17), 21);
    case 22 =>
      GoodTwo(Group(2, 139, 111), Group(7, 140, 112), 22);
      GoodOne(Group(17, 74, 46), 22);
      GoodTwo(Group(7, 54, 24), Group(16, 55, 25), 22);
      GoodOne(Group(34, 37, 13), 22);
    case 23 =>
      GoodTwo(Group(4, 151, 121), Group(5, 152, 122), 23);
      GoodTwo(Group(4, 75, 47), Group(14, 76, 48), 23);
      GoodTwo(Group(11, 54, 24), Group(14, 55, 25), 23);
      GoodTwo(Group(16, 45, 15), Group(14, 46, 16), 23);
    case 24 =>
      GoodTwo(Group(6, 147, 117), Group(4, 148, 118), 24);
      GoodTwo(Group(6, 73, 45), Group(14, 74, 46), 24);
      GoodTwo(Group(11, 54, 24), Group(16, 55, 25), 24);
      GoodTwo(Group(30, 46, 16), Group(2, 47, 17), 24);
    case _ =>
      GoodTwo(Group(8, 132, 106), Group(4, 133, 107), 25);
      GoodTwo(Group(8, 75, 47), Group(13, 76, 48), 25);
      GoodTwo(Group(7, 54, 24), Group(22, 55, 25), 25);
      GoodTwo(Group(22, 45, 15), Group(13, 46, 16), 25);
  }

  lemma Good26(version: int)
    requires 26 <= version <= 30
    ensures GoodRow(Rows21(version), version)
  {
    hide GoodGroups, DataModules, Capacity;
    Words21();
    match version
    case 26 =>
      GoodTwo(Group(10, 142, 114), Group(2, 143, 115), 26);
      GoodTwo(Group(19, 74, 46), Group(4, 75, 47), 26);
      GoodTwo(Group(28, 50, 22), Group(6, 51, 23), 26);
      GoodTwo(Group(33, 46, 16), Group(4, 47, 17), 26);
    case 27 =>
      GoodTwo(Group(8, 152, 122), Group(4, 153, 123), 27);
      GoodTwo(Group(22, 73, 45), Group(3, 74, 46), 27);
      GoodTwo(Group(8, 53, 23), Group(26, 54, 24), 27);
      GoodTwo(Group(12, 45, 15), Group(28, 46, 16), 27);
    case 28 =>
      GoodTwo(Group(3, 147, 117), Group(10, 148, 118), 28);
      GoodTwo(Group(3, 73, 45), Group(23, 74, 46), 28);
      GoodTwo(Group(4, 54, 24), Group(31, 55, 25), 28);
      GoodTwo(Group(11, 45, 15), Group(31, 46, 16), 28);
    case 29 =>
      GoodTwo(Group(7, 146, 116), Group(7, 147, 117), 29);
      GoodTwo(Group(21, 73, 45), Group(7, 74, 46), 29);
      GoodTwo(Group(1, 53, 23), Group(37, 54, 24), 29);
      GoodTwo(Group(19, 45, 15), Group(26, 46, 16), 29);
    case _ =>
      GoodTwo(Group(5, 145, 115), Group(10, 146, 116), 30);
      GoodTwo(Group(19, 75, 47), Group(10, 76, 48), 30);
      GoodTwo(Group(15, 54, 24), Group(25, 55, 25), 30);
      GoodTwo(Group(23, 45, 15), Group(25, 46, 16), 30);
  }

  lemma Words31()
    ensures DataModules(31) / 8 == 2323 && DataModules(32) / 8 == 2465
    ensures DataModules(33) / 8 == 2611 && DataModules(34) / 8 == 2761
    ensures DataModules(35) / 8 == 2876 && DataModules(36) / 8 == 3034
    ensures DataModules(37) / 8 == 3196 && DataModules(38) / 8 == 3362
    ensures DataModules(39) / 8 == 3532 && DataModules(40) / 8 == 3706
  {}

  lemma Good31(version: int)
    requires 31 <= version <= 35
    ensures GoodRow(Rows31(version), version)
  {
    hide GoodGroups, DataModules, Capacity;
    Words31();
    match version
    case 31 =>
      GoodTwo(Group(13, 145, 115), Group(3, 146, 116), 31);
      GoodTwo(Group(2, 74, 46), Group(29, 75, 47), 31);
      GoodTwo(Group(42, 54, 24), Group(1, 55, 25), 31);
      GoodTwo(Group(23, 45, 15), Group(28, 46, 16), 31);
    case 32 =>
      GoodOne(Group(17, 145, 115), 32);
      GoodTwo(Group(10, 74, 46), Group(23, 75, 47), 32);
      GoodTwo(Group(10, 54, 24), Group(35, 55, 25), 32);
      GoodTwo(Group(19, 45, 15), Group(35, 46, 16), 32);
    case 33 =>
      GoodTwo(Group(17, 145, 115), Group(1, 146, 116), 33);
      GoodTwo(Group(14, 74, 46), Group(21, 75, 47), 33);
      GoodTwo(Group(29, 54, 24), Group(19, 55, 25), 33);
      GoodTwo(Group(11, 45, 15), Group(46, 46, 16), 33);
    case 34 =>
      GoodTwo(Group(13, 145, 115), Group(6, 146, 116), 34);
      GoodTwo(Group(14, 74, 46), Group(23, 75, 47), 34);
      GoodTwo(Group(44, 54, 24), Group(7, 55, 25), 34);
      GoodTwo(Group(59, 46, 16), Group(1, 47, 17), 34);
    case _ =>
      GoodTwo(Group(12, 151, 121), Group(7, 152, 122), 35);
      GoodTwo(Group(12, 75, 47), Group(26, 76, 48), 35);
      GoodTwo(Group(39, 54, 24), Group(14, 55, 25), 35);
      GoodTwo(Group(22, 45, 15), Group(41, 46, 16), 35);
  }

  lemma Good36(version: int)
    requires 36 <= version <= 40
    ensures GoodRow(Rows31(version), version)
  {
    hide GoodGroups, DataModules, Capacity;
    Words31();
    match version
    case 36 =>
      GoodTwo(Group(6, 151, 121), Group(14, 152, 122), 36);
      GoodTwo(Group(6, 75, 47), Group(34, 76, 48), 36);
      GoodTwo(Group(46, 54, 24), Group(10, 55, 25), 36);
      GoodTwo(Group(2, 45, 15), Group(64, 46, 16), 36);
    case 37 =>
      GoodTwo(Group(17, 152, 122), Group(4, 153, 123), 37);
      GoodTwo(Group(29, 74, 46), Group(14, 75, 47), 37);
      GoodTwo(Group(49, 54, 24), Group(10, 55, 25), 37);
      GoodTwo(Group(24, 45, 15), Group(46, 46, 16), 37);
    case 38 =>
      GoodTwo(Group(4, 152, 122), Group(18, 153, 123), 38);
      GoodTwo(Group(13, 74, 46), Group(32, 75, 47), 38);
      GoodTwo(Group(48, 54, 24), Group(14, 55, 25), 38);
      GoodTwo(Group(42, 45, 15), Group(32, 46, 16), 38);
    case 39 =>
      GoodTwo(Group(20, 147, 117), Group(4, 148, 118), 39);
      GoodTwo(Group(40, 75, 47), Group(7, 76, 48), 39);
      GoodTwo(Group(43, 54, 24), Group(22, 55, 25), 39);
      GoodTwo(Group(10, 45, 15), Group(67, 46, 16), 39);
    case _ =>
      GoodTwo(Group(19, 148, 118), Group(6, 149, 119), 40);
      GoodTwo(Group(18, 75, 47), Group(31, 76, 48), 40);
      GoodTwo(Group(34, 54, 24), Group(34, 55, 25), 40);
      GoodTwo(Group(20, 45, 15), Group(61, 46, 16), 40);
  }

  lemma RowAtIsGood(version: int)
    requires 1 <= version <= 40
    ensures GoodRow(RowAt(version), version)
  {
    hide Rows1, Rows11, Rows21, Rows31, GoodRow;
    if version <= 5 { Good1(version); }
    else if version <= 10 { Good6(version); }
    else if version <= 15 { Good11(version); }
    else if version <= 20 { Good16(version); }
    else if version <= 25 { Good21(version); }
    else if version <= 30 { Good26(version); }
    else if version <= 35 { Good31(version); }
    else { Good36(version); }
  }

  lemma RowIsGood(version: int, level: Level)
    requires 1 <= version <= 40
    ensures GoodGroups(Groups(RowAt(version), level), version)
  {
    hide RowAt, GoodGroups, DataModules;
    RowAtIsGood(version);
  }

  /** A higher level has less room for data. */
  lemma LevelsOrdered(version: int)
    requires 1 <= version <= 40
    ensures DataTotal(Blocks(version, L).value) > DataTotal(Blocks(version, M).value)
          > DataTotal(Blocks(version, Q).value) > DataTotal(Blocks(version, H).value)
  {
    hide RowAt, GoodGroups, DataModules, Expand, Capacity;
    RowAtIsGood(version);
    BlocksFit(version, L);
    BlocksFit(version, M);
    BlocksFit(version, Q);
    BlocksFit(version, H);
  }

  lemma {:induction false} TotalsJoin(xs: seq<RsBlock>, ys: seq<RsBlock>)
    ensures DataTotal(xs + ys) == DataTotal(xs) + DataTotal(ys)
    ensures CodeTotal(xs + ys) == CodeTotal(xs) + CodeTotal(ys)
  {
    if xs == [] {
      assert xs + ys == ys;
    } else {
      assert (xs + ys)[1..] == xs[1..] + ys;
      TotalsJoin(xs[1..], ys);
    }
  }

  lemma {:induction false} TotalsRepeat(count: nat, block: RsBlock)
    ensures DataTotal(Repeat(count, block)) == count * block.dataCount
    ensures CodeTotal(Repeat(count, block)) == count * block.totalCount
  {
    if count > 0 {
      assert Repeat(count, block)[1..] == Repeat(count - 1, block);
      TotalsRepeat(count - 1, block);
      assert count * block.dataCount == (count - 1) * block.dataCount + block.dataCount;
      assert count * block.totalCount == (count - 1) * block.totalCount + block.totalCount;
    }
  }

  lemma {:induction false} ExpandFits(groups: seq<Group>)
    requires forall i :: 0 <= i < |groups| ==> GoodGroup(groups[i])
    ensures DataTotal(Expand(groups)) == Capacity(groups) && CodeTotal(Expand(groups)) == Codewords(groups)
    ensures Proper(Expand(groups)) && forall k :: 0 <= k < |Expand(groups)| ==> EcCount(Expand(groups)[k]) <= 30
  {
    if groups != [] {
      var front, last := groups[..|groups| - 1], groups[|groups| - 1];
      var more := Repeat(last.count, RsBlock(last.totalCount, last.dataCount));
      ExpandFits(front);
      TotalsJoin(Expand(front), more);
      TotalsRepeat(last.count, RsBlock(last.totalCount, last.dataCount));
      assert GoodGroup(last);
    }
  }

  /** MAIN RESULT: every row of the table has at most 30 error correction codewords a block, stays
      within the capacity that the character counts of its version can express, and fills the modules
      the function patterns leave up to fewer than eight, whatever the level. */
  lemma BlocksFit(version: int, level: Level)
    requires 1 <= version <= 40
    ensures var blocks := Blocks(version, level).value;
      && Proper(blocks) && ShortCorrections(blocks)
      && DataTotal(blocks) == Capacity(Groups(RowAt(version), level)) <= MaxDataCodewords(version)
      && CodeTotal(blocks) == DataModules(version) / 8
  {
    hide RowAt, Expand, Capacity, DataModules;
    RowIsGood(version, level);
    ExpandFits(Groups(RowAt(version), level));
  }

  // ---- The smallest version -------------------------------------------------------------------

  ghost predicate Legal(segments: seq<Segments.Segment>) {
    forall i :: 0 <= i < |segments| ==> Segments.Writable(segments[i])
  }

  lemma LegalIsWritable(segments: seq<Segments.Segment>, version: int)
    requires 1 <= version <= 40
    ensures Segments.AllWritable(segments, version) <==> Legal(segments)
  {}

  /** The segments fit the version's data codewords. */
  ghost predicate Fits(segments: seq<Segments.Segment>, version: int, level: Level)
    requires Legal(segments) && 1 <= version <= 40
  {
    LegalIsWritable(segments, version);
    |Segments.SegmentsBits(segments, version)| <= DataTotal(Blocks(version, level).value) * Bits.BYTE
  }

  /** make without a version: takes the first one from 1 on that the segments fit, and 40 untried. */
  method ChooseVersion(segments: seq<Segments.Segment>, level: Level) returns (r: Result<int>)
    requires forall i :: 0 <= i < |segments| && segments[i].Bytes? ==> Segments.Writable(segments[i])
    ensures r.Ok? <==> Legal(segments)
    ensures r.Ok? ==> 1 <= r.value <= 40
    ensures r.Ok? ==> forall v :: 1 <= v < r.value ==> !Fits(segments, v, level)
    ensures r.Ok? && r.value < 40 ==> Fits(segments, r.value, level)
  {
    hide Legal, Segments.AllWritable, Segments.SegmentsBits, Blocks;
    var version := 1;
    while version < 40
      invariant 1 <= version <= 40
      invariant version > 1 ==> Legal(segments)
      invariant Legal(segments) ==> forall v :: 1 <= v < version ==> !Fits(segments, v, level)
    {
      var rsBlocks := GetRsBlocks(version, level);
      SomeBlocks(version, level);
      var buffer := new QrBitBuffer();
      LegalIsWritable(segments, version);
      var error := WriteSegments(buffer, segments, version);
      if error.Some? {
        return Err(error.value);
      }
      var total := AddDataCounts(rsBlocks.value);
      BufferLength(buffer);
      if buffer.length <= total * Bits.BYTE {
        return Ok(version);
      }
      version := version + 1;
    }
    return Ok(version);
  }

  lemma SomeBlocks(version: int, level: Level)
    requires 1 <= version <= 40
    ensures Blocks(version, level).Some?
  {}

  lemma BufferLength(buffer: QrBitBuffer)
    requires buffer.Valid()
    ensures buffer.length == |buffer.bits|
  {}

  // ---- Every version and level ----------------------------------------------------------------

  /** MAIN RESULT: for every version and level the segments that fit, and no others, become a data
      URL, and the URL reads back as the segments. */
  method MakeVersionUrl(math: Gf256.QrMath, modules: array2<Module>, version: int, level: Level,
                        segments: seq<Segments.Segment>, pattern: nat, givenSize: Option<nat>, givenMargin: Option<nat>)
    returns (r: Result<string>)
    requires math.Valid() && 1 <= version <= 40 && pattern < 8
    requires modules.Length0 == modules.Length1 == version * 4 + 17
    requires forall i :: 0 <= i < |segments| && segments[i].Bytes? ==> Segments.Writable(segments[i])
    modifies modules
    ensures r.Ok? <==> Legal(segments) && Fits(segments, version, level)
    ensures var n, cellSize, blocks := modules.Length0, CellSize(givenSize), Blocks(version, level).value;
            var margin := Margin(givenMargin, cellSize);
            && r.Ok? && PictureSize(n, cellSize, margin) < 65536
            && (forall i :: 0 <= i < n ==> old(Cells(modules))[Cell(i, 6)] != Empty)
            && |Free(old(Cells(modules)))| >= Bits.BYTE * CodeTotal(blocks)
            ==> && GifImages.ReadUrl(r.value).Some?
                && forall dx: nat, dy: nat :: dx < cellSize && dy < cellSize ==>
                     ScansTo(GifImages.ReadUrl(r.value).value, n, cellSize, margin, dx, dy, old(Cells(modules)), pattern,
                             blocks, version, segments)
  {
    hide Path, Free, Segments.AllWritable, Segments.SegmentsBits, GifImages.ReadUrl, ScansTo, Blocks, Legal,
         CellSize, Margin, PictureSize, ShortCorrections, Proper, Capacity, DataModules;
    var blocks := GetRsBlocks(version, level);
    SomeBlocks(version, level);
    BlocksFit(version, level);
    LegalIsWritable(segments, version);
    var made := MakeDataUrl(math, modules, version, blocks.value, segments, pattern, givenSize, givenMargin);
    if made.Err? {
      return Err(made.error);
    }
    return Ok(made.value.value);
  }
}
