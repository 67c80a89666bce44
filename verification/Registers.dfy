/** Register slots, meter series and register batches (api/models.py, api/batch.py). */
module Registers {
  import opened Wrappers
  import opened Planner

  /** A 16-bit word as the transport hands it over. */
  type Word = w: int | 0 <= w < 0x1_0000

  datatype DataType = INT16 | UINT16 | INT32 | UINT32 | INT64 | STRING

  datatype Series = EM330 | EM331 | EM340 | EM341 | ET330 | ET340

  const ALL_SERIES: set<Series> := {EM330, EM331, EM340, EM341, ET330, ET340}
  const ET_SERIES: set<Series> := {ET330, ET340}
  const ET_SERIES_AND_EM330: set<Series> := ET_SERIES + {EM330}

  /** Whether meters of `who` include this one; a meter that is not identified may be any. */
  predicate Carries(who: set<Series>, meter: Option<Series>) {
    meter.None? || meter.value in who
  }

  /** How many words a fixed-width type occupies. */
  function FixedWidth(dataType: DataType): Option<int> {
    match dataType
    case INT16 => Some(1)
    case UINT16 => Some(1)
    case INT32 => Some(2)
    case UINT32 => Some(2)
    case INT64 => Some(4)
    case STRING => None
  }

  datatype Slot = Slot(
    name: string,
    address: int,
    dataType: DataType,
    length: int,
    scale: Option<real>,
    series: set<Series>,
    standalone: bool)
  {
    predicate WellFormed() {
      match FixedWidth(dataType)
      case Some(width) => length == width
      case None => length >= 1
    }

    predicate Spans(a: int) {
      address <= a < address + length
    }

    function Addresses(): (span: seq<int>)
      requires length >= 0
      ensures |span| == length
      ensures forall a :: a in span <==> Spans(a)
    {
      var span := seq(length, i requires 0 <= i => address + i);
      assert forall a :: Spans(a) ==> span[a - address] == a;
      span
    }

    predicate SupportedBy(meter: Option<Series>) {
      Carries(series, meter)
    }
  }

  /** A register as it exists after construction. */
  type Register = r: Slot | r.WellFormed()
    witness Slot("", 0, INT16, 1, None, ALL_SERIES, false)

  /** The errors a bad length raises. */
  datatype LengthError = LengthRequired | LengthMismatch(expected: int)

  /** Building a register derives the length of a fixed-width type and checks a given one. */
  function MakeRegister(
    name: string, address: int, dataType: DataType,
    length: Option<int> := None, scale: Option<real> := None,
    series: set<Series> := ALL_SERIES, standalone: bool := false
  ): (r: Result<Slot, LengthError>)
    ensures r.Ok? ==> r.value.WellFormed()
    ensures r.Ok? ==> r.value == Slot(name, address, dataType, r.value.length, scale, series, standalone)
    ensures r.Ok? <==> if dataType.STRING? then length.Some? && length.value >= 1
                       else length in {None, FixedWidth(dataType)}
    ensures r.Ok? && length.Some? ==> r.value.length == length.value
    ensures r.Err? ==> (r.error.LengthRequired? <==> dataType.STRING?)
  {
    match FixedWidth(dataType)
    case None =>
      if length.None? || length.value < 1 then Err(LengthRequired)
      else Ok(Slot(name, address, dataType, length.value, scale, series, standalone))
    case Some(expected) =>
      if length.Some? && length.value != expected then Err(LengthMismatch(expected))
      else Ok(Slot(name, address, dataType, expected, scale, series, standalone))
  }

  // ----- Names

  ghost predicate UniqueNames(registers: seq<Register>) {
    forall i, j :: 0 <= i < j < |registers| ==> registers[i].name != registers[j].name
  }

  // ----- Stored series

  /** The value a series is stored as. */
  function SeriesName(series: Series): string {
    match series
    case EM330 => "EM330"
    case EM331 => "EM331"
    case EM340 => "EM340"
    case EM341 => "EM341"
    case ET330 => "ET330"
    case ET340 => "ET340"
  }

  /** Reading a stored series back gives the series that was stored, and tolerates any other
    text as "not identified". */
  function SeriesFromValue(value: Option<string>): (r: Option<Series>)
    ensures forall s :: r == Some(s) <==> value == Some(SeriesName(s))
  {
    match value
    case None => None
    case Some(text) =>
      if text == "EM330" then Some(EM330)
      else if text == "EM331" then Some(EM331)
      else if text == "EM340" then Some(EM340)
      else if text == "EM341" then Some(EM341)
      else if text == "ET330" then Some(ET330)
      else if text == "ET340" then Some(ET340)
      else None
  }

  /** The values that entries hold. */
  lemma StoredNames()
    ensures SeriesFromValue(Some("EM330")) == Some(EM330) && SeriesFromValue(Some("EM331")) == Some(EM331)
    ensures SeriesFromValue(Some("EM340")) == Some(EM340) && SeriesFromValue(Some("EM341")) == Some(EM341)
    ensures SeriesFromValue(Some("ET330")) == Some(ET330) && SeriesFromValue(Some("ET340")) == Some(ET340)
  {
  }

  // ----- Batches

  /** The words of every register that may be read together with others, in source order. */
  function BatchWords(registers: seq<Register>): (words: seq<int>)
    ensures forall a :: a in words <==> exists r :: r in registers && !r.standalone && r.Spans(a)
  {
    if registers == [] then []
    else
      assert registers == [registers[0]] + registers[1..];
      (if registers[0].standalone then [] else registers[0].Addresses()) + BatchWords(registers[1..])
  }

  /** Every address that some read of the list contains. */
  function CoveredAddresses(plan: seq<Read>): (addresses: set<int>)
    ensures forall a :: a in addresses <==> Covered(plan, a)
  {
    if plan == [] then {}
    else
      FirstOrRest(plan);
      Run(plan[0].start, plan[0].End() - 1) + CoveredAddresses(plan[1..])
  }

  lemma FirstOrRest(plan: seq<Read>)
    requires plan != []
    ensures forall a :: Covered(plan, a) <==> plan[0].Contains(a) || Covered(plan[1..], a)
  {
    assert plan == [plan[0]] + plan[1..];
    forall a
      ensures Covered(plan, a) <==> plan[0].Contains(a) || Covered(plan[1..], a)
    {
      CoveredByEither([plan[0]], plan[1..], a);
      assert Covered([plan[0]], a) <==> plan[0].Contains(a);
    }
  }

  datatype RegisterBatch = RegisterBatch(registers: seq<Register>, requests: seq<Read>) {
    /** Every word address the batched reads cover. */
    function Addresses(): set<int> {
      CoveredAddresses(requests)
    }

    /** The requests are the plan for the registers' words. */
    ghost predicate Planned() {
      IsPlan(requests, Elements(BatchWords(registers)), MAX_READ_REGISTERS)
    }
  }

  method NewRegisterBatch(registers: seq<Register>) returns (batch: RegisterBatch)
    ensures batch.registers == registers && batch.Planned()
  {
    var plan := SplitAddresses(BatchWords(registers));
    batch := RegisterBatch(registers, plan.value);
  }

  /** The addresses a batch covers are those of its registers, and planning them again
    changes nothing. */
  lemma ReplanningIsStable(batch: RegisterBatch, again: seq<Read>)
    requires batch.Planned()
    requires IsPlan(again, batch.Addresses(), MAX_READ_REGISTERS)
    ensures batch.Addresses() == Elements(BatchWords(batch.registers))
    ensures again == batch.requests
  {
    forall a
      ensures a in batch.Addresses() <==> a in Elements(BatchWords(batch.registers))
    {
      assert Covered(batch.requests, a) <==> a in Elements(BatchWords(batch.registers));
    }
    assert batch.Addresses() == Elements(BatchWords(batch.registers));
    PlanIsUnique(again, batch.requests, batch.Addresses(), MAX_READ_REGISTERS);
  }

  /** No other way of reading the words of a batch, and only those, needs fewer requests. */
  lemma BatchIsMinimal(batch: RegisterBatch, other: seq<Read>)
    requires batch.Planned()
    requires IsLegalCover(other, batch.Addresses(), MAX_READ_REGISTERS)
    ensures |batch.requests| <= |other|
  {
    ReplanningIsStable(batch, batch.requests);
    PlanIsMinimal(batch.requests, other, batch.Addresses(), MAX_READ_REGISTERS);
  }
}
