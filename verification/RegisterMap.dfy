/** The polled register map and the identification codes (api/register_map.py). */
module RegisterMap {
  import opened Wrappers
  import opened Planner
  import opened Registers

  const WEIGHT_VOLT := 10.0
  const WEIGHT_AMPERE := 1000.0
  const WEIGHT_WATT := 10.0
  const WEIGHT_VA := 10.0
  const WEIGHT_VAR := 10.0
  const WEIGHT_PF := 1000.0
  const WEIGHT_HZ := 10.0
  const WEIGHT_KWH := 10.0
  const WEIGHT_KVARH := 10.0
  const WEIGHT_HOURS := 100.0

  /** The two builders the measurement registers are declared with. */
  datatype Row =
    | I32(name: string, address: int, scale: Option<real>, series: set<Series>)
    | I16(name: string, address: int, scale: Option<real>)

  function Build(row: Row): (r: Register)
    ensures r.name == row.name && r.address == row.address && r.scale == row.scale && !r.standalone
    ensures r.dataType == if row.I32? then INT32 else INT16
    ensures r.length == if row.I32? then 2 else 1
    ensures r.series == if row.I32? then row.series else ALL_SERIES
  {
    match row
    case I32(name, address, scale, series) => MakeRegister(name, address, INT32, None, scale, series).value
    case I16(name, address, scale) => MakeRegister(name, address, INT16, None, scale).value
  }

  const REG_CG_IDENTIFICATION: Register :=
    MakeRegister("cg_identification", 0x000B, UINT16, standalone := true).value

  const REG_SERIAL_NUMBER: Register := MakeRegister("serial_number", 0x5000, STRING, Some(7)).value

  const REG_VERSION_CODE: Register := MakeRegister("version_code", 0x0302, UINT16).value
  const REG_REVISION_CODE: Register := MakeRegister("revision_code", 0x0303, UINT16).value

  const EM300_IDENTITY_REGISTERS: seq<Register> := [REG_VERSION_CODE, REG_REVISION_CODE]

  const CG_IDENTIFICATION_CODES: map<int, Series> := map[
    331 := EM330, 332 := EM330, 335 := ET330, 336 := ET330, 340 := EM340,
    341 := EM340, 345 := ET340, 346 := EM341, 355 := EM331
  ]

  function SeriesForIdentificationCode(code: Option<int>): Option<Series> {
    if code.None? || code.value !in CG_IDENTIFICATION_CODES then None
    else Some(CG_IDENTIFICATION_CODES[code.value])
  }

  // ----- Table 2.4-1, in the blocks of consecutive addresses it consists of

  // phase voltages
  const PHASE_VOLTAGES: seq<Row> := [
    I32("v_l1_n", 0x0000, Some(WEIGHT_VOLT), ALL_SERIES),
    I32("v_l2_n", 0x0002, Some(WEIGHT_VOLT), ALL_SERIES),
    I32("v_l3_n", 0x0004, Some(WEIGHT_VOLT), ALL_SERIES),
    I32("v_l1_l2", 0x0006, Some(WEIGHT_VOLT), ALL_SERIES),
    I32("v_l2_l3", 0x0008, Some(WEIGHT_VOLT), ALL_SERIES),
    I32("v_l3_l1", 0x000A, Some(WEIGHT_VOLT), ALL_SERIES)
  ]

  // phase currents
  const PHASE_CURRENTS: seq<Row> := [
    I32("a_l1", 0x000C, Some(WEIGHT_AMPERE), ALL_SERIES),
    I32("a_l2", 0x000E, Some(WEIGHT_AMPERE), ALL_SERIES),
    I32("a_l3", 0x0010, Some(WEIGHT_AMPERE), ALL_SERIES)
  ]

  // per-phase power
  const PHASE_POWERS: seq<Row> := [
    I32("w_l1", 0x0012, Some(WEIGHT_WATT), ALL_SERIES),
    I32("w_l2", 0x0014, Some(WEIGHT_WATT), ALL_SERIES),
    I32("w_l3", 0x0016, Some(WEIGHT_WATT), ALL_SERIES),
    I32("va_l1", 0x0018, Some(WEIGHT_VA), ALL_SERIES),
    I32("va_l2", 0x001A, Some(WEIGHT_VA), ALL_SERIES),
    I32("va_l3", 0x001C, Some(WEIGHT_VA), ALL_SERIES),
    I32("var_l1", 0x001E, Some(WEIGHT_VAR), ALL_SERIES),
    I32("var_l2", 0x0020, Some(WEIGHT_VAR), ALL_SERIES),
    I32("var_l3", 0x0022, Some(WEIGHT_VAR), ALL_SERIES)
  ]

  // system aggregates
  const SYSTEM_AGGREGATES: seq<Row> := [
    I32("v_ln_sys", 0x0024, Some(WEIGHT_VOLT), ALL_SERIES),
    I32("v_ll_sys", 0x0026, Some(WEIGHT_VOLT), ALL_SERIES),
    I32("w_sys", 0x0028, Some(WEIGHT_WATT), ALL_SERIES),
    I32("va_sys", 0x002A, Some(WEIGHT_VA), ALL_SERIES),
    I32("var_sys", 0x002C, Some(WEIGHT_VAR), ALL_SERIES)
  ]

  // the only single-word measurements
  const SINGLE_WORDS: seq<Row> := [
    I16("pf_l1", 0x002E, Some(WEIGHT_PF)),
    I16("pf_l2", 0x002F, Some(WEIGHT_PF)),
    I16("pf_l3", 0x0030, Some(WEIGHT_PF)),
    I16("pf_sys", 0x0031, Some(WEIGHT_PF)),
    I16("phase_sequence", 0x0032, None),
    I16("hz", 0x0033, Some(WEIGHT_HZ))
  ]

  // energy totalizers and demand
  const TOTALIZERS: seq<Row> := [
    I32("kwh_pos_tot", 0x0034, Some(WEIGHT_KWH), ALL_SERIES),
    I32("kvarh_pos_tot", 0x0036, Some(WEIGHT_KVARH), ALL_SERIES),
    I32("w_dmd", 0x0038, Some(WEIGHT_WATT), ALL_SERIES),
    I32("w_dmd_peak", 0x003A, Some(WEIGHT_WATT), ALL_SERIES),
    I32("kwh_pos_partial", 0x003C, Some(WEIGHT_KWH), ALL_SERIES),
    I32("kvarh_pos_partial", 0x003E, Some(WEIGHT_KVARH), ALL_SERIES),
    I32("kwh_pos_l1", 0x0040, Some(WEIGHT_KWH), ALL_SERIES),
    I32("kwh_pos_l2", 0x0042, Some(WEIGHT_KWH), ALL_SERIES),
    I32("kwh_pos_l3", 0x0044, Some(WEIGHT_KWH), ALL_SERIES),
    I32("kwh_pos_t1", 0x0046, Some(WEIGHT_KWH), ALL_SERIES),
    I32("kwh_pos_t2", 0x0048, Some(WEIGHT_KWH), ALL_SERIES)
  ]

  const EXPORT_TOTALIZERS: seq<Row> := [
    I32("kwh_neg_tot", 0x004E, Some(WEIGHT_KWH), ALL_SERIES),
    I32("kvarh_neg_tot", 0x0050, Some(WEIGHT_KVARH), ALL_SERIES)
  ]

  // documented as "only ET series and EM330"
  const RUN_HOURS: seq<Row> := [
    I32("run_hour_meter", 0x005A, Some(WEIGHT_HOURS), ET_SERIES_AND_EM330)
  ]

  // documented as "only ET series"
  const PHASE_EXPORTS: seq<Row> := [
    I32("kwh_neg_l1", 0x0060, Some(WEIGHT_KWH), ET_SERIES),
    I32("kwh_neg_l2", 0x0062, Some(WEIGHT_KWH), ET_SERIES),
    I32("kwh_neg_l3", 0x0064, Some(WEIGHT_KWH), ET_SERIES)
  ]

  const INSTANTANEOUS: seq<Row> := PHASE_VOLTAGES + PHASE_CURRENTS + PHASE_POWERS + SYSTEM_AGGREGATES
  const METERS: seq<Row> := TOTALIZERS + EXPORT_TOTALIZERS + RUN_HOURS + PHASE_EXPORTS
  const ROWS: seq<Row> := INSTANTANEOUS + SINGLE_WORDS + METERS

  function BuildAll(rows: seq<Row>): (registers: seq<Register>)
    ensures |registers| == |rows|
    ensures forall i :: 0 <= i < |rows| ==> registers[i] == Build(rows[i])
  {
    if rows == [] then [] else [Build(rows[0])] + BuildAll(rows[1..])
  }

  const EM300_REGISTERS: seq<Register> := BuildAll(ROWS)

  /** The registers of a list that a meter series carries. */
  function SupportedRegisters(registers: seq<Register>, series: Option<Series>): (kept: seq<Register>)
    ensures forall r :: r in kept <==> r in registers && r.SupportedBy(series)
  {
    if registers == [] then []
    else
      assert registers == [registers[0]] + registers[1..];
      (if registers[0].SupportedBy(series) then [registers[0]] else [])
      + SupportedRegisters(registers[1..], series)
  }

  /** What an identified meter is polled for. */
  function PolledRegisters(series: Option<Series>): seq<Register> {
    SupportedRegisters(EM300_REGISTERS, series)
  }

  // ----- Names


  lemma {:induction false} FilteringKeepsNamesUnique(registers: seq<Register>, series: Option<Series>)
    requires UniqueNames(registers)
    ensures UniqueNames(SupportedRegisters(registers, series))
  {
    if registers != [] {
      FilteringKeepsNamesUnique(registers[1..], series);
      var kept := SupportedRegisters(registers[1..], series);
      forall i | 0 <= i < |kept|
        ensures kept[i].name != registers[0].name
      {
        assert kept[i] in registers[1..];
      }
    }
  }

  ghost predicate DistinctRows(rows: seq<Row>) {
    forall i, j :: 0 <= i < j < |rows| ==> rows[i].name != rows[j].name
  }

  ghost predicate ApartRows(p: seq<Row>, q: seq<Row>) {
    forall i, j :: 0 <= i < |p| && 0 <= j < |q| ==> p[i].name != q[j].name
  }

  lemma ConcatenationIsDistinct(p: seq<Row>, q: seq<Row>)
    requires DistinctRows(p) && DistinctRows(q) && ApartRows(p, q)
    ensures DistinctRows(p + q)
  {
  }

  lemma ConcatenationIsApart(p: seq<Row>, q: seq<Row>, r: seq<Row>)
    requires ApartRows(p, r) && ApartRows(q, r)
    ensures ApartRows(p + q, r)
  {
  }

  lemma InstantaneousBlocksAreDistinct()
    ensures DistinctRows(PHASE_VOLTAGES) && DistinctRows(PHASE_CURRENTS)
    ensures DistinctRows(PHASE_POWERS) && DistinctRows(SYSTEM_AGGREGATES)
  {
  }

  lemma TotalizersAreDistinct()
    ensures DistinctRows(TOTALIZERS)
  {
  }

  lemma OtherBlocksAreDistinct()
    ensures DistinctRows(SINGLE_WORDS)
    ensures DistinctRows(EXPORT_TOTALIZERS) && DistinctRows(RUN_HOURS) && DistinctRows(PHASE_EXPORTS)
  {
  }

  lemma InstantaneousBlocksAreApart()
    ensures ApartRows(PHASE_VOLTAGES, PHASE_CURRENTS)
    ensures ApartRows(PHASE_VOLTAGES + PHASE_CURRENTS, PHASE_POWERS)
    ensures ApartRows(PHASE_VOLTAGES + PHASE_CURRENTS + PHASE_POWERS, SYSTEM_AGGREGATES)
  {
  }

  lemma MeterBlocksAreApart()
    ensures ApartRows(TOTALIZERS, EXPORT_TOTALIZERS)
    ensures ApartRows(TOTALIZERS + EXPORT_TOTALIZERS, RUN_HOURS)
    ensures ApartRows(TOTALIZERS + EXPORT_TOTALIZERS + RUN_HOURS, PHASE_EXPORTS)
  {
  }

  lemma SingleWordsAreApart()
    ensures ApartRows(INSTANTANEOUS, SINGLE_WORDS)
  {
  }

  lemma SingleWordsAreApartFromMeters()
    ensures ApartRows(SINGLE_WORDS, METERS)
  {
  }

  lemma TotalizersAreApart()
    ensures ApartRows(PHASE_VOLTAGES + PHASE_CURRENTS, TOTALIZERS)
  {
  }

  lemma MoreTotalizersAreApart()
    ensures ApartRows(PHASE_POWERS + SYSTEM_AGGREGATES, TOTALIZERS)
  {
  }

  lemma OtherMetersAreApart()
    ensures ApartRows(INSTANTANEOUS, EXPORT_TOTALIZERS) && ApartRows(INSTANTANEOUS, RUN_HOURS + PHASE_EXPORTS)
  {
  }

  lemma RowNamesAreDistinct()
    ensures DistinctRows(ROWS)
  {
    var v, vc := PHASE_VOLTAGES, PHASE_VOLTAGES + PHASE_CURRENTS;
    InstantaneousBlocksAreDistinct();
    InstantaneousBlocksAreApart();
    ConcatenationIsDistinct(v, PHASE_CURRENTS);
    ConcatenationIsDistinct(vc, PHASE_POWERS);
    ConcatenationIsDistinct(vc + PHASE_POWERS, SYSTEM_AGGREGATES);
    var t, te := TOTALIZERS, TOTALIZERS + EXPORT_TOTALIZERS;
    TotalizersAreDistinct();
    OtherBlocksAreDistinct();
    MeterBlocksAreApart();
    ConcatenationIsDistinct(t, EXPORT_TOTALIZERS);
    ConcatenationIsDistinct(te, RUN_HOURS);
    ConcatenationIsDistinct(te + RUN_HOURS, PHASE_EXPORTS);
    SingleWordsAreApart();
    SingleWordsAreApartFromMeters();
    TotalizersAreApart();
    MoreTotalizersAreApart();
    ConcatenationIsApart(vc, PHASE_POWERS + SYSTEM_AGGREGATES, TOTALIZERS);
    assert INSTANTANEOUS == vc + (PHASE_POWERS + SYSTEM_AGGREGATES);
    OtherMetersAreApart();
    assert METERS == TOTALIZERS + (EXPORT_TOTALIZERS + (RUN_HOURS + PHASE_EXPORTS));
    ConcatenationIsDistinct(INSTANTANEOUS, SINGLE_WORDS);
    ConcatenationIsApart(INSTANTANEOUS, SINGLE_WORDS, METERS);
    ConcatenationIsDistinct(INSTANTANEOUS + SINGLE_WORDS, METERS);
  }

  /** Register names are unique in what any meter is polled for. */
  lemma PolledNamesAreUnique(series: Option<Series>)
    ensures UniqueNames(PolledRegisters(series))
  {
    RowNamesAreDistinct();
    FilteringKeepsNamesUnique(EM300_REGISTERS, series);
  }

  // ----- Words

  /** Some register of the rows that the series carries spans the address. */
  ghost predicate Spanned(rows: seq<Row>, series: Option<Series>, a: int) {
    exists row :: row in rows && Build(row).SupportedBy(series) && Build(row).Spans(a)
  }

  lemma EverySeries(series: Option<Series>)
    ensures Carries(ALL_SERIES, series)
  {
    if series.Some? {
      match series.value
      case EM330 | EM331 | EM340 | EM341 | ET330 | ET340 =>
    }
  }

  /** A block of adjacent two-word registers. */
  ghost predicate Pairs(rows: seq<Row>, first: int, who: set<Series>) {
    forall k :: 0 <= k < |rows| ==> rows[k].I32? && rows[k].address == first + 2 * k && rows[k].series == who
  }

  /** A block of adjacent one-word registers. */
  ghost predicate Singles(rows: seq<Row>, first: int) {
    forall k :: 0 <= k < |rows| ==> rows[k].I16? && rows[k].address == first + k
  }

  lemma PairsSpan(rows: seq<Row>, first: int, who: set<Series>, series: Option<Series>, a: int)
    requires Pairs(rows, first, who)
    ensures Spanned(rows, series, a) <==> Carries(who, series) && first <= a < first + 2 * |rows|
  {
    if first <= a < first + 2 * |rows| {
      var row := rows[(a - first) / 2];
      assert row in rows && Build(row).Spans(a);
    }
  }

  lemma SinglesSpan(rows: seq<Row>, first: int, series: Option<Series>, a: int)
    requires Singles(rows, first)
    ensures Spanned(rows, series, a) <==> first <= a < first + |rows|
  {
    EverySeries(series);
    if first <= a < first + |rows| {
      var row := rows[a - first];
      assert row in rows && Build(row).Spans(a);
    }
  }

  lemma ConcatenationSpans(p: seq<Row>, q: seq<Row>, series: Option<Series>, a: int)
    ensures Spanned(p + q, series, a) <==> Spanned(p, series, a) || Spanned(q, series, a)
  {
  }

  lemma BlockAddresses()
    ensures Pairs(PHASE_VOLTAGES, 0x0000, ALL_SERIES) && Pairs(PHASE_CURRENTS, 0x000C, ALL_SERIES)
    ensures Pairs(PHASE_POWERS, 0x0012, ALL_SERIES) && Pairs(SYSTEM_AGGREGATES, 0x0024, ALL_SERIES)
    ensures Singles(SINGLE_WORDS, 0x002E)
    ensures Pairs(TOTALIZERS, 0x0034, ALL_SERIES) && Pairs(EXPORT_TOTALIZERS, 0x004E, ALL_SERIES)
    ensures Pairs(RUN_HOURS, 0x005A, ET_SERIES_AND_EM330) && Pairs(PHASE_EXPORTS, 0x0060, ET_SERIES)
  {
  }

  /** The words a meter of the series is polled for. */
  predicate PolledWord(series: Option<Series>, a: int) {
    || 0x0000 <= a < 0x004A
    || 0x004E <= a < 0x0052
    || (Carries(ET_SERIES_AND_EM330, series) && 0x005A <= a < 0x005C)
    || (Carries(ET_SERIES, series) && 0x0060 <= a < 0x0066)
  }

  lemma InstantaneousSpan(series: Option<Series>, a: int)
    ensures Spanned(INSTANTANEOUS, series, a) <==> 0x0000 <= a < 0x002E
  {
    BlockAddresses();
    EverySeries(series);
    PairsSpan(PHASE_VOLTAGES, 0x0000, ALL_SERIES, series, a);
    PairsSpan(PHASE_CURRENTS, 0x000C, ALL_SERIES, series, a);
    PairsSpan(PHASE_POWERS, 0x0012, ALL_SERIES, series, a);
    PairsSpan(SYSTEM_AGGREGATES, 0x0024, ALL_SERIES, series, a);
    ConcatenationSpans(PHASE_VOLTAGES, PHASE_CURRENTS, series, a);
    ConcatenationSpans(PHASE_VOLTAGES + PHASE_CURRENTS, PHASE_POWERS, series, a);
    ConcatenationSpans(PHASE_VOLTAGES + PHASE_CURRENTS + PHASE_POWERS, SYSTEM_AGGREGATES, series, a);
  }

  lemma MetersSpan(series: Option<Series>, a: int)
    ensures Spanned(METERS, series, a) <==> PolledWord(series, a) && a >= 0x0034
  {
    BlockAddresses();
    EverySeries(series);
    PairsSpan(TOTALIZERS, 0x0034, ALL_SERIES, series, a);
    PairsSpan(EXPORT_TOTALIZERS, 0x004E, ALL_SERIES, series, a);
    PairsSpan(RUN_HOURS, 0x005A, ET_SERIES_AND_EM330, series, a);
    PairsSpan(PHASE_EXPORTS, 0x0060, ET_SERIES, series, a);
    ConcatenationSpans(TOTALIZERS, EXPORT_TOTALIZERS, series, a);
    ConcatenationSpans(TOTALIZERS + EXPORT_TOTALIZERS, RUN_HOURS, series, a);
    ConcatenationSpans(TOTALIZERS + EXPORT_TOTALIZERS + RUN_HOURS, PHASE_EXPORTS, series, a);
  }

  lemma RowsSpan(series: Option<Series>, a: int)
    ensures Spanned(ROWS, series, a) <==> PolledWord(series, a)
  {
    BlockAddresses();
    InstantaneousSpan(series, a);
    SinglesSpan(SINGLE_WORDS, 0x002E, series, a);
    MetersSpan(series, a);
    ConcatenationSpans(INSTANTANEOUS, SINGLE_WORDS, series, a);
    ConcatenationSpans(INSTANTANEOUS + SINGLE_WORDS, METERS, series, a);
  }

  lemma RegistersOfRows(rows: seq<Row>, r: Register)
    ensures r in BuildAll(rows) <==> exists row :: row in rows && r == Build(row)
  {
    var registers := BuildAll(rows);
    if r in registers {
      var i :| 0 <= i < |registers| && registers[i] == r;
      assert rows[i] in rows;
    }
    if exists row :: row in rows && r == Build(row) {
      var i :| 0 <= i < |rows| && r == Build(rows[i]);
      assert registers[i] == r;
    }
  }

  lemma PolledWords(series: Option<Series>, a: int)
    ensures a in BatchWords(PolledRegisters(series)) <==> PolledWord(series, a)
  {
    RowsSpan(series, a);
    if Spanned(ROWS, series, a) {
      var row :| row in ROWS && Build(row).SupportedBy(series) && Build(row).Spans(a);
      RegistersOfRows(ROWS, Build(row));
      assert Build(row) in PolledRegisters(series);
    }
    if a in BatchWords(PolledRegisters(series)) {
      var r :| r in PolledRegisters(series) && !r.standalone && r.Spans(a);
      RegistersOfRows(ROWS, r);
    }
  }

  /** Every polled register is one word, or two words from an even address; none is standalone. */
  predicate Aligned(r: Register) {
    && !r.standalone
    && (r.length == 1 || (r.length == 2 && r.address % 2 == 0))
  }

  lemma PolledRegistersAreAligned(series: Option<Series>)
    ensures forall r :: r in PolledRegisters(series) ==> Aligned(r)
  {
    RowsAreAligned();
    forall r | r in PolledRegisters(series)
      ensures Aligned(r)
    {
      RegistersOfRows(ROWS, r);
      var row :| row in ROWS && r == Build(row);
    }
  }

  ghost predicate EvenPairs(rows: seq<Row>) {
    forall row :: row in rows && row.I32? ==> row.address % 2 == 0
  }

  lemma RowsAreAligned()
    ensures EvenPairs(ROWS)
  {
    BlockAddresses();
    PairsAreEven(PHASE_VOLTAGES, 0x0000, ALL_SERIES);
    PairsAreEven(PHASE_CURRENTS, 0x000C, ALL_SERIES);
    PairsAreEven(PHASE_POWERS, 0x0012, ALL_SERIES);
    PairsAreEven(SYSTEM_AGGREGATES, 0x0024, ALL_SERIES);
    PairsAreEven(TOTALIZERS, 0x0034, ALL_SERIES);
    PairsAreEven(EXPORT_TOTALIZERS, 0x004E, ALL_SERIES);
    PairsAreEven(RUN_HOURS, 0x005A, ET_SERIES_AND_EM330);
    PairsAreEven(PHASE_EXPORTS, 0x0060, ET_SERIES);
    assert EvenPairs(SINGLE_WORDS);
    assert EvenPairs(INSTANTANEOUS);
    assert EvenPairs(METERS);
  }

  lemma PairsAreEven(rows: seq<Row>, first: int, who: set<Series>)
    requires Pairs(rows, first, who) && first % 2 == 0
    ensures EvenPairs(rows)
  {
    forall row | row in rows
      ensures row.address % 2 == 0
    {
      var k :| 0 <= k < |rows| && rows[k] == row;
      assert rows[k].address == first + 2 * k;
    }
  }

  /** The value weights of the map. */
  predicate Weighted(scale: Option<real>) {
    scale.None? || scale.value in {10.0, 100.0, 1000.0}
  }

  ghost predicate WeightedRows(rows: seq<Row>) {
    forall row :: row in rows ==> Weighted(row.scale)
  }

  lemma VoltagesAndCurrentsAreWeighted()
    ensures WeightedRows(PHASE_VOLTAGES) && WeightedRows(PHASE_CURRENTS)
  {
  }

  lemma PowersAndAggregatesAreWeighted()
    ensures WeightedRows(PHASE_POWERS) && WeightedRows(SYSTEM_AGGREGATES)
  {
  }

  lemma MeterBlocksAreWeighted()
    ensures WeightedRows(TOTALIZERS)
  {
  }

  lemma OtherBlocksAreWeighted()
    ensures WeightedRows(SINGLE_WORDS) && WeightedRows(EXPORT_TOTALIZERS)
    ensures WeightedRows(RUN_HOURS) && WeightedRows(PHASE_EXPORTS)
  {
  }

  lemma PolledWeights(series: Option<Series>)
    ensures forall r :: r in PolledRegisters(series) ==> Weighted(r.scale) && !r.dataType.STRING?
  {
    VoltagesAndCurrentsAreWeighted();
    PowersAndAggregatesAreWeighted();
    MeterBlocksAreWeighted();
    OtherBlocksAreWeighted();
    assert WeightedRows(INSTANTANEOUS) && WeightedRows(METERS);
    forall r | r in PolledRegisters(series)
      ensures Weighted(r.scale) && !r.dataType.STRING?
    {
      RegistersOfRows(ROWS, r);
      var row :| row in ROWS && r == Build(row);
    }
  }

  // ----- The plan of a poll

  /** The requests of one poll, by series. */
  function PollRequests(series: Option<Series>): seq<Read> {
    [Read(0x0000, 20), Read(0x0014, 20), Read(0x0028, 20), Read(0x003C, 14), Read(0x004E, 4)]
    + (if Carries(ET_SERIES_AND_EM330, series) then [Read(0x005A, 2)] else [])
    + (if Carries(ET_SERIES, series) then [Read(0x0060, 6)] else [])
  }

  lemma PollRequestsBySeries(series: Option<Series>)
    ensures PollRequests(series)
      == [Read(0x0000, 20), Read(0x0014, 20), Read(0x0028, 20), Read(0x003C, 14), Read(0x004E, 4)]
         + match series
           case None => [Read(0x005A, 2), Read(0x0060, 6)]
           case Some(ET330) => [Read(0x005A, 2), Read(0x0060, 6)]
           case Some(ET340) => [Read(0x005A, 2), Read(0x0060, 6)]
           case Some(EM330) => [Read(0x005A, 2)]
           case Some(_) => []
  {
  }

  /** A poll costs five to seven requests, and these are the ones. */
  lemma PollPlan(series: Option<Series>, batch: RegisterBatch)
    requires batch.registers == PolledRegisters(series) && batch.Planned()
    ensures batch.requests == PollRequests(series)
  {
    var words := Elements(BatchWords(PolledRegisters(series)));
    var plan := PollRequests(series);
    forall a
      ensures a in words <==> PolledWord(series, a)
    {
      PolledWords(series, a);
    }
    forall a
      ensures a in words <==> Covered(plan, a)
    {
      RequestsCover(series, a);
    }
    RequestsAreGreedy(series);
    PlanIsUnique(batch.requests, plan, words, MAX_READ_REGISTERS);
  }

  lemma RequestsAreGreedy(series: Option<Series>)
    ensures Ordered(PollRequests(series)) && Sized(PollRequests(series), MAX_READ_REGISTERS)
    ensures forall i :: 0 <= i < |PollRequests(series)| ==>
      var r := PollRequests(series)[i];
      r.length == MAX_READ_REGISTERS || !PolledWord(series, r.End())
  {
  }

  lemma RequestsCover(series: Option<Series>, a: int)
    ensures Covered(PollRequests(series), a) <==> PolledWord(series, a)
  {
    var plan := PollRequests(series);
    if PolledWord(series, a) {
      assert exists i :: 0 <= i < |plan| && plan[i].Contains(a) by {
        if a < 0x004A {
          assert plan[if a < 60 then a / 20 else 3].Contains(a);
        } else if a < 0x0052 {
          assert plan[4].Contains(a);
        } else if a < 0x005C {
          assert plan[5].Contains(a);
        } else {
          assert plan[6].Contains(a);
        }
      }
    }
  }
}
