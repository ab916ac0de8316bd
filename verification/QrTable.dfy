/** The block table against table 9 of ISO/IEC 18004:2015. */
module QrTable {
  // The standard gives the number of blocks and the correction codewords of each; how the codewords
  // are cut follows: as evenly as possible, shorter blocks first.

  import opened Wrappers
  import opened QrBlocks
  import opened QrVersions

  /** So many blocks, with so many error correction codewords each. */
  datatype Plan = Plan(blocks: nat, correction: nat)

  datatype Plans = Plans(l: Plan, m: Plan, q: Plan, h: Plan)

  function Plans1(version: int): Plans
    requires 1 <= version <= 10
  {
    match version
    case 1 => Plans(Plan(1, 7), Plan(1, 10), Plan(1, 13), Plan(1, 17))
    case 2 => Plans(Plan(1, 10), Plan(1, 16), Plan(1, 22), Plan(1, 28))
    case 3 => Plans(Plan(1, 15), Plan(1, 26), Plan(2, 18), Plan(2, 22))
    case 4 => Plans(Plan(1, 20), Plan(2, 18), Plan(2, 26), Plan(4, 16))
    case 5 => Plans(Plan(1, 26), Plan(2, 24), Plan(4, 18), Plan(4, 22))
    case 6 => Plans(Plan(2, 18), Plan(4, 16), Plan(4, 24), Plan(4, 28))
    case 7 => Plans(Plan(2, 20), Plan(4, 18), Plan(6, 18), Plan(5, 26))
    case 8 => Plans(Plan(2, 24), Plan(4, 22), Plan(6, 22), Plan(6, 26))
    case 9 => Plans(Plan(2, 30), Plan(5, 22), Plan(8, 20), Plan(8, 24))
    case _ => Plans(Plan(4, 18), Plan(5, 26), Plan(8, 24), Plan(8, 28))
  }

  function Plans11(version: int): Plans
    requires 11 <= version <= 20
  {
    match version
    case 11 => Plans(Plan(4, 20), Plan(5, 30), Plan(8, 28), Plan(11, 24))
    case 12 => Plans(Plan(4, 24), Plan(8, 22), Plan(10, 26), Plan(11, 28))
    case 13 => Plans(Plan(4, 26), Plan(9, 22), Plan(12, 24), Plan(16, 22))
    case 14 => Plans(Plan(4, 30), Plan(9, 24), Plan(16, 20), Plan(16, 24))
    case 15 => Plans(Plan(6, 22), Plan(10, 24), Plan(12, 30), Plan(18, 24))
    case 16 => Plans(Plan(6, 24), Plan(10, 28), Plan(17, 24), Plan(16, 30))
    case 17 => Plans(Plan(6, 28), Plan(11, 28), Plan(16, 28), Plan(19, 28))
    case 18 => Plans(Plan(6, 30), Plan(13, 26), Plan(18, 28), Plan(21, 28))
    case 19 => Plans(Plan(7, 28), Plan(14, 26), Plan(21, 26), Plan(25, 26))
    case _ => Plans(Plan(8, 28), Plan(16, 26), Plan(20, 30), Plan(25, 28))
  }

  function Plans21(version: int): Plans
    requires 21 <= version <= 30
  {
    match version
    case 21 => Plans(Plan(8, 28), Plan(17, 26), Plan(23, 28), Plan(25, 30))
    case 22 => Plans(Plan(9, 28), Plan(17, 28), Plan(23, 30), Plan(34, 24))
    case 23 => Plans(Plan(9, 30), Plan(18, 28), Plan(25, 30), Plan(30, 30))
    case 24 => Plans(Plan(10, 30), Plan(20, 28), Plan(27, 30), Plan(32, 30))
    case 25 => Plans(Plan(12, 26), Plan(21, 28), Plan(29, 30), Plan(35, 30))
    case 26 => Plans(Plan(12, 28), Plan(23, 28), Plan(34, 28), Plan(37, 30))
    case 27 => Plans(Plan(12, 30), Plan(25, 28), Plan(34, 30), Plan(40, 30))
    case 28 => Plans(Plan(13, 30), Plan(26, 28), Plan(35, 30), Plan(42, 30))
    case 29 => Plans(Plan(14, 30), Plan(28, 28), Plan(38, 30), Plan(45, 30))
    case _ => Plans(Plan(15, 30), Plan(29, 28), Plan(40, 30), Plan(48, 30))
  }

  function Plans31(version: int): Plans
    requires 31 <= version <= 40
  {
    match version
    case 31 => Plans(Plan(16, 30), Plan(31, 28), Plan(43, 30), Plan(51, 30))
    case 32 => Plans(Plan(17, 30), Plan(33, 28), Plan(45, 30), Plan(54, 30))
    case 33 => Plans(Plan(18, 30), Plan(35, 28), Plan(48, 30), Plan(57, 30))
    case 34 => Plans(Plan(19, 30), Plan(37, 28), Plan(51, 30), Plan(60, 30))
    case 35 => Plans(Plan(19, 30), Plan(38, 28), Plan(53, 30), Plan(63, 30))
    case 36 => Plans(Plan(20, 30), Plan(40, 28), Plan(56, 30), Plan(66, 30))
    case 37 => Plans(Plan(21, 30), Plan(43, 28), Plan(59, 30), Plan(70, 30))
    case 38 => Plans(Plan(22, 30), Plan(45, 28), Plan(62, 30), Plan(74, 30))
    case 39 => Plans(Plan(24, 30), Plan(47, 28), Plan(65, 30), Plan(77, 30))
    case _ => Plans(Plan(25, 30), Plan(49, 28), Plan(68, 30), Plan(81, 30))
  }

  function PlansOf(version: int): Plans
    requires 1 <= version <= 40
  {
    if version <= 10 then Plans1(version)
    else if version <= 20 then Plans11(version)
    else if version <= 30 then Plans21(version)
    else Plans31(version)
  }

  function PlanOf(version: int, level: Level): Plan
    requires 1 <= version <= 40
  {
    match level
    case L => PlansOf(version).l
    case M => PlansOf(version).m
    case Q => PlansOf(version).q
    case H => PlansOf(version).h
  }

  /** The groups cut that many codewords by the plan. */
  predicate Cuts(groups: seq<Group>, words: int, plan: Plan) {
    && plan.blocks > 0 && words / plan.blocks >= plan.correction
    && var size, data := words / plan.blocks, words / plan.blocks - plan.correction;
    && var longer := words % plan.blocks;
    && groups == if longer == 0 then [Group(plan.blocks, size, data)]
                 else [Group(plan.blocks - longer, size, data), Group(longer, size + 1, data + 1)]
  }

  predicate CutsRow(row: Row, words: int, plans: Plans) {
    Cuts(row.l, words, plans.l) && Cuts(row.m, words, plans.m) && Cuts(row.q, words, plans.q) && Cuts(row.h, words, plans.h)
  }

  lemma Cut1(version: int)
    requires 1 <= version <= 2
    ensures CutsRow(Rows1(version), DataModules(version) / 8, Plans1(version))
  {
    hide DataModules;
    Words1();
  }

  lemma Cut3(version: int)
    requires 3 <= version <= 4
    ensures CutsRow(Rows1(version), DataModules(version) / 8, Plans1(version))
  {
    hide DataModules;
    Words1();
  }

  lemma Cut5(version: int)
    requires 5 <= version <= 6
    ensures CutsRow(Rows1(version), DataModules(version) / 8, Plans1(version))
  {
    hide DataModules;
    Words1();
  }

  lemma Cut7(version: int)
    requires 7 <= version <= 8
    ensures CutsRow(Rows1(version), DataModules(version) / 8, Plans1(version))
  {
    hide DataModules;
    Words1();
  }

  lemma Cut9(version: int)
    requires 9 <= version <= 10
    ensures CutsRow(Rows1(version), DataModules(version) / 8, Plans1(version))
  {
    hide DataModules;
    Words1();
  }

  lemma Cut11(version: int)
    requires 11 <= version <= 12
    ensures CutsRow(Rows11(version), DataModules(version) / 8, Plans11(version))
  {
    hide DataModules;
    Words11();
  }

  lemma Cut13(version: int)
    requires 13 <= version <= 14
    ensures CutsRow(Rows11(version), DataModules(version) / 8, Plans11(version))
  {
    hide DataModules;
    Words11();
  }

  lemma Cut15(version: int)
    requires 15 <= version <= 16
    ensures CutsRow(Rows11(version), DataModules(version) / 8, Plans11(version))
  {
    hide DataModules;
    Words11();
  }

  lemma Cut17(version: int)
    requires 17 <= version <= 18
    ensures CutsRow(Rows11(version), DataModules(version) / 8, Plans11(version))
  {
    hide DataModules;
    Words11();
  }

  lemma Cut19(version: int)
    requires 19 <= version <= 20
    ensures CutsRow(Rows11(version), DataModules(version) / 8, Plans11(version))
  {
    hide DataModules;
    Words11();
  }

  lemma Cut21(version: int)
    requires 21 <= version <= 22
    ensures CutsRow(Rows21(version), DataModules(version) / 8, Plans21(version))
  {
    hide DataModules;
    Words21();
  }

  lemma Cut23(version: int)
    requires 23 <= version <= 24
    ensures CutsRow(Rows21(version), DataModules(version) / 8, Plans21(version))
  {
    hide DataModules;
    Words21();
  }

  lemma Cut25(version: int)
    requires 25 <= version <= 26
    ensures CutsRow(Rows21(version), DataModules(version) / 8, Plans21(version))
  {
    hide DataModules;
    Words21();
  }

  lemma Cut27(version: int)
    requires 27 <= version <= 28
    ensures CutsRow(Rows21(version), DataModules(version) / 8, Plans21(version))
  {
    hide DataModules;
    Words21();
  }

  lemma Cut29(version: int)
    requires 29 <= version <= 30
    ensures CutsRow(Rows21(version), DataModules(version) / 8, Plans21(version))
  {
    hide DataModules;
    Words21();
  }

  lemma Cut31(version: int)
    requires 31 <= version <= 32
    ensures CutsRow(Rows31(version), DataModules(version) / 8, Plans31(version))
  {
    hide DataModules;
    Words31();
  }

  lemma Cut33(version: int)
    requires 33 <= version <= 34
    ensures CutsRow(Rows31(version), DataModules(version) / 8, Plans31(version))
  {
    hide DataModules;
    Words31();
  }

  lemma Cut35(version: int)
    requires 35 <= version <= 36
    ensures CutsRow(Rows31(version), DataModules(version) / 8, Plans31(version))
  {
    hide DataModules;
    Words31();
  }

  lemma Cut37(version: int)
    requires 37 <= version <= 38
    ensures CutsRow(Rows31(version), DataModules(version) / 8, Plans31(version))
  {
    hide DataModules;
    Words31();
  }

  lemma Cut39(version: int)
    requires 39 <= version <= 40
    ensures CutsRow(Rows31(version), DataModules(version) / 8, Plans31(version))
  {
    hide DataModules;
    Words31();
  }

  lemma RowIsCut(version: int, level: Level)
    requires 1 <= version <= 40
    ensures Cuts(Groups(RowAt(version), level), DataModules(version) / 8, PlanOf(version, level))
  {
    hide Cuts, Rows1, Rows11, Rows21, Rows31, Plans1, Plans11, Plans21, Plans31, DataModules;
    if version <= 2 { Cut1(version); }
    else if version <= 4 { Cut3(version); }
    else if version <= 6 { Cut5(version); }
    else if version <= 8 { Cut7(version); }
    else if version <= 10 { Cut9(version); }
    else if version <= 12 { Cut11(version); }
    else if version <= 14 { Cut13(version); }
    else if version <= 16 { Cut15(version); }
    else if version <= 18 { Cut17(version); }
    else if version <= 20 { Cut19(version); }
    else if version <= 22 { Cut21(version); }
    else if version <= 24 { Cut23(version); }
    else if version <= 26 { Cut25(version); }
    else if version <= 28 { Cut27(version); }
    else if version <= 30 { Cut29(version); }
    else if version <= 32 { Cut31(version); }
    else if version <= 34 { Cut33(version); }
    else if version <= 36 { Cut35(version); }
    else if version <= 38 { Cut37(version); }
    else { Cut39(version); }
  }

  lemma ExpandTwo(a: Group, b: Group)
    ensures Expand([a]) == Repeat(a.count, RsBlock(a.totalCount, a.dataCount))
    ensures Expand([a, b]) == Repeat(a.count, RsBlock(a.totalCount, a.dataCount))
                              + Repeat(b.count, RsBlock(b.totalCount, b.dataCount))
  {
    assert [a][..0] == [] && [a, b][..1] == [a];
  }

  /** The blocks share the codewords as evenly as possible, the longer ones last, and each ends in
      the plan's number of error correction codewords. */
  ghost predicate Even(blocks: seq<RsBlock>, words: int, plan: Plan) {
    && plan.blocks > 0 && |blocks| == plan.blocks
    && forall k :: 0 <= k < |blocks| ==>
         var size := words / plan.blocks + (if k < plan.blocks - words % plan.blocks then 0 else 1);
         blocks[k].totalCount == size && blocks[k].dataCount + plan.correction == size
  }

  lemma CutIsEven(groups: seq<Group>, words: int, plan: Plan)
    requires Cuts(groups, words, plan)
    ensures Even(Expand(groups), words, plan)
  {
    hide Expand;
    ExpandTwo(groups[0], groups[|groups| - 1]);
    assert |groups| == 1 ==> groups == [groups[0]];
    assert |groups| == 2 ==> groups == [groups[0], groups[1]];
  }

  /** MAIN RESULT: in every version and level the codewords that the function patterns leave room for
      are cut into the standard's number of blocks, evenly, with its number of error correction
      codewords in each. */
  lemma BlocksAreStandard(version: int, level: Level)
    requires 1 <= version <= 40
    ensures Blocks(version, level).Some?
            && Even(Blocks(version, level).value, DataModules(version) / 8, PlanOf(version, level))
  {
    hide Cuts, Even, Expand, DataModules, PlansOf, RowAt;
    RowIsCut(version, level);
    CutIsEven(Groups(RowAt(version), level), DataModules(version) / 8, PlanOf(version, level));
  }
}
