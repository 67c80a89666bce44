/** Config entries: setup, reconfiguration and creation (__init__.py, config_flow.py). */
module ConfigEntries {
  import opened Wrappers
  import opened Registers
  import opened RegisterMap
  import opened Transport
  import opened Device
  import Coordinator
  import opened EntryData
  import opened Planner

  // ----- What happens to the data of one entry

  /** What a setup or a reconfiguration found out. `reached` says that the meter was connected to
    and that no exception cut its identification short. */
  datatype Event =
    | Setup(reached: bool, code: Option<int>)
    | Reconfigure(reached: bool, input: Data, found: DeviceInfo)

  /** The series a setup polls for. */
  function SeriesInUse(data: Data, code: Option<int>): Option<Series> {
    SeriesOf(code, RememberedSeries(data))
  }

  /** A reconfiguration is refused when the entry knows a serial number that is not the meter's. */
  predicate Refused(data: Data, found: DeviceInfo) {
    Truthy(Get(data, CONF_SERIAL_NUMBER)) && TextOrNothing(found.serialNumber) != Get(data, CONF_SERIAL_NUMBER)
  }

  /** What is stored counts unless it is missing, empty or zero, and only the same text agrees
    with it. */
  lemma {:induction false} RefusedExactly(data: Data, found: DeviceInfo)
    ensures CONF_SERIAL_NUMBER !in data ==> !Refused(data, found)
    ensures CONF_SERIAL_NUMBER in data ==>
      var stored := data[CONF_SERIAL_NUMBER];
      Refused(data, found) <==>
        && stored != Nothing && stored != Text("") && stored != Number(0)
        && (found.serialNumber.None? || stored != Text(found.serialNumber.value))
  {
  }

  /** A setup stores the series it uses unless it is stored already. */
  function Remembered(data: Data, series: Option<Series>): Data {
    if series.None? || Get(data, CONF_SERIES) == Text(SeriesName(series.value)) then data
    else data[CONF_SERIES := Text(SeriesName(series.value))]
  }

  function Apply(data: Data, event: Event): Data {
    match event
    case Setup(reached, code) => if reached then Remembered(data, SeriesInUse(data, code)) else data
    case Reconfigure(reached, input, found) =>
      if !reached || Refused(data, found) then data else data + DeviceData(input, found)
  }

  function DataAfter(data: Data, events: seq<Event>): Data {
    if events == [] then data
    else Apply(DataAfter(data, events[..|events| - 1]), events[|events| - 1])
  }

  // ----- The entry and the two operations on it

  class ConfigEntry {
    const uniqueId: string
    var data: Data

    constructor (uniqueId: string, data: Data)
      ensures this.uniqueId == uniqueId && this.data == data
    {
      this.uniqueId, this.data := uniqueId, data;
    }
  }

  datatype RuntimeData = RuntimeData(device: Em300Device, coordinator: Coordinator.Em300Coordinator)

  datatype SetupError =
    | CannotOpen
    | Unreachable(fault: Fault)
    | Unexpected(fault: Fault)
    | NotRefreshed(error: Coordinator.UpdateError)

  function SetupFailure(fault: Fault): SetupError {
    if fault.Tolerated() then Unreachable(fault) else Unexpected(fault)
  }

  method ConnectAndIdentify(device: Em300Device, fallback: Option<Series>) returns (r: Result<DeviceInfo, Fault>)
    requires device.Valid() && !device.client.locked
    modifies device, device.client
    ensures device.Valid() && !device.client.locked
    ensures r.Ok? <==> (device.client.connecting(old(device.client.attempts)).None?
                        && Identifiable(device.client.meter, |old(device.client.sent)|))
    ensures r.Err? ==>
      r.error == match device.client.connecting(old(device.client.attempts))
                 case Some(fault) => fault
                 case None => ForeignFault
    ensures r.Ok? ==> r.value == InfoAnswered(device.client.meter, |old(device.client.sent)|, fallback)
    ensures r.Ok? ==> device.info == Some(r.value) && !device.client.closed
    ensures r.Ok? ==> device.client.sent == old(device.client.sent) + IDENTITY_REQUESTS
  {
    var _ :- device.Connect();
    r := device.Identify(fallback);
  }

  /** The client is the one the entry's data describes; there is none when its serial port does
    not exist. Once the meter is identified, the first poll asks for the words of the series in
    use, and the setup succeeds exactly when every request of that poll gets its answer. */
  method SetupEntry(entry: ConfigEntry, built: Option<Em300Client>)
    returns (r: Result<RuntimeData, SetupError>, ghost event: Event)
    requires built.Some? ==> !built.value.locked
    modifies entry`data, if built.Some? then {built.value} else {}
    ensures event.Setup? && entry.data == Apply(old(entry.data), event)
    ensures built.None? ==> r == Err(CannotOpen) && !event.reached
    ensures built.Some? ==>
      var (client, k) := (built.value, |old(built.value.sent)|);
      && !client.locked
      && (event.reached <==> client.connecting(old(client.attempts)).None? && Identifiable(client.meter, k))
      && (event.reached ==> event.code == CodeAnswered(client.meter, k))
      && (event.reached ==>
            var plan := PollRequests(SeriesInUse(old(entry.data), event.code));
            && client.sent == old(built.value.sent) + IDENTITY_REQUESTS + PollSent(client.meter, k + 3, plan)
            && EndsAsPolled(client.meter, k + 3, plan, r))
      && (!event.reached ==>
            r == Err(match client.connecting(old(client.attempts))
                     case Some(fault) => if fault == ForeignFault then Unexpected(fault) else Unreachable(fault)
                     case None => Unexpected(ForeignFault)))
      && (r.Err? ==> client.closed)
    ensures r.Ok? ==>
      var device := r.value.device;
      && event.reached && built == Some(device.client) && !device.client.closed
      && device.Valid() && r.value.coordinator.Valid() && r.value.coordinator.device == device
      && device.registers == PolledRegisters(SeriesInUse(old(entry.data), event.code))
  {
    event := Setup(false, None);
    if built.None? {
      return Err(CannotOpen), event;
    }
    var client := built.value;
    var device := new Em300Device(client);

    var info := ConnectAndIdentify(device, RememberedSeries(entry.data));
    if info.Err? {
      device.Close();
      return Err(SetupFailure(info.error)), event;
    }
    event := Setup(true, info.value.identificationCode);
    r := FirstRefresh(entry, device, info.value);
  }

  /** Success exactly when each request of the plan gets an answer of its length, and otherwise
    the error that the first other reply makes. */
  ghost predicate EndsAsPolled(
    meter: (nat, Request) -> Reply, k: nat, plan: seq<Read>, r: Result<RuntimeData, SetupError>)
  {
    && (r.Ok? <==> AllAnswered(meter, k, plan))
    && (r.Err? ==>
          exists n: nat, fault ::
            && FailsAt(meter, k, plan, n, fault)
            && r.error == NotRefreshed(
                 if fault == ForeignFault then Coordinator.Escaped(fault) else Coordinator.ReadFailed(fault)))
  }

  lemma {:induction false} FirstPoll(meter: (nat, Request) -> Reply, k: nat, batch: RegisterBatch)
    ensures var poll := PollResult(meter, k, batch);
      && (poll.Ok? <==> AllAnswered(meter, k, batch.requests))
      && (poll.Err? ==> FailsAt(meter, k, batch.requests, BatchLength(meter, k, batch.requests), poll.error))
  {
    BatchSucceedsExactly(meter, k, batch.requests);
    if PollResult(meter, k, batch).Err? {
      FailingReadIsLast(meter, k, batch.requests);
    }
  }

  /** The rest of a setup, once the meter is identified: the series is remembered before the
    first poll, whose failure closes the connection. */
  method FirstRefresh(entry: ConfigEntry, device: Em300Device, info: DeviceInfo)
    returns (r: Result<RuntimeData, SetupError>)
    requires device.Valid() && device.info == Some(info) && !device.client.locked && !device.client.closed
    modifies entry`data, device.client
    ensures entry.data == Remembered(old(entry.data), info.series)
    ensures !device.client.locked && device.client.closed == r.Err?
    ensures device.client.sent == old(device.client.sent)
      + PollSent(device.client.meter, |old(device.client.sent)|, PollRequests(info.series))
    ensures EndsAsPolled(device.client.meter, |old(device.client.sent)|, PollRequests(info.series), r)
    ensures r.Ok? ==> r.value.device == device && r.value.coordinator.Valid() && r.value.coordinator.device == device
  {
    RememberSeries(entry, info);

    PollPlan(info.series, device.batch);
    FirstPoll(device.client.meter, |device.client.sent|, device.batch);
    var coordinator := new Coordinator.Em300Coordinator(device);
    var first := coordinator.UpdateData();
    if first.Err? {
      device.Close();
      return Err(NotRefreshed(first.error));
    }
    return Ok(RuntimeData(device, coordinator));
  }

  method RememberSeries(entry: ConfigEntry, info: DeviceInfo)
    modifies entry`data
    ensures entry.data == Remembered(old(entry.data), info.series)
    ensures info.series.Some? ==> RememberedSeries(entry.data) == info.series
    ensures info.series.None? ==> entry.data == old(entry.data)
    ensures forall key :: key != CONF_SERIES ==> Get(entry.data, key) == Get(old(entry.data), key)
  {
    if info.series.None? || Get(entry.data, CONF_SERIES) == Text(SeriesName(info.series.value)) {
      return;
    }
    entry.data := entry.data[CONF_SERIES := Text(SeriesName(info.series.value))];
  }

  /** How a flow over a connection form ends. */
  datatype FlowResult =
    | InvalidPort
    | CannotConnect
    | Crashed(fault: Fault)
    | WrongMeter(expected: Item, found: Item)
    | ReconfigureSuccessful
    | AlreadyConfigured
    | Created(entry: ConfigEntry)

  /** The probe connects, identifies without a fallback, and always closes again. */
  method Probe(client: Em300Client) returns (r: Result<DeviceInfo, Fault>)
    requires !client.locked
    modifies client
    ensures !client.locked && client.closed
    ensures r.Ok? ==> r.value == InfoAnswered(client.meter, |old(client.sent)|, None)
    ensures r.Ok? <==> client.connecting(old(client.attempts)).None? && Identifiable(client.meter, |old(client.sent)|)
    ensures r.Err? ==>
      r.error == match client.connecting(old(client.attempts)) case Some(fault) => fault case None => ForeignFault
  {
    var device := new Em300Device(client);
    r := ConnectAndIdentify(device, None);
    device.Close();
  }

  method StepReconfigure(entry: ConfigEntry, input: Data, built: Option<Em300Client>)
    returns (r: FlowResult, ghost event: Event)
    requires FormData(input) && (built.Some? ==> !built.value.locked)
    modifies entry`data, if built.Some? then {built.value} else {}
    ensures event.Reconfigure? && event.input == input && entry.data == Apply(old(entry.data), event)
    ensures built.Some? ==> built.value.closed
    ensures event.reached
      == (built.Some? && built.value.connecting(old(built.value.attempts)).None?
          && Identifiable(built.value.meter, |old(built.value.sent)|))
    ensures event.reached ==> event.found == InfoAnswered(built.value.meter, |old(built.value.sent)|, None)
    ensures built.None? ==> r == InvalidPort
    ensures built.Some? && !event.reached ==>
      r == match built.value.connecting(old(built.value.attempts))
           case Some(fault) => if fault == ForeignFault then Crashed(fault) else CannotConnect
           case None => Crashed(ForeignFault)
    ensures event.reached ==> r.ReconfigureSuccessful? || r.WrongMeter?
    ensures event.reached ==>
      var stored := Get(old(entry.data), CONF_SERIAL_NUMBER);
      r.WrongMeter? <==>
        && stored != Nothing && stored != Text("") && stored != Number(0)
        && (event.found.serialNumber.None? || stored != Text(event.found.serialNumber.value))
    ensures r.ReconfigureSuccessful? ==>
      var (meter, k) := (built.value.meter, |old(built.value.sent)|);
      && RememberedSeries(entry.data) == SeriesForIdentificationCode(CodeAnswered(meter, k))
      && Get(entry.data, CONF_SERIAL_NUMBER) == TextOrNothing(SerialAnswered(meter, k + 1))
    ensures !r.ReconfigureSuccessful? ==> entry.data == old(entry.data)
  {
    event := Reconfigure(false, input, DeviceInfo(None, None, None, None));
    if built.None? {
      return InvalidPort, event;
    }
    var info := Probe(built.value);
    if info.Err? {
      return if info.error.Tolerated() then CannotConnect else Crashed(info.error), event;
    }
    event := Reconfigure(true, input, info.value);
    r := ReconfigureEntry(entry, input, info.value);
  }

  /** Where an entry points may change, but not the meter that it stands for. */
  method ReconfigureEntry(entry: ConfigEntry, input: Data, info: DeviceInfo) returns (r: FlowResult)
    modifies entry`data
    ensures entry.data == Apply(old(entry.data), Reconfigure(true, input, info))
    ensures r == if Refused(old(entry.data), info)
                 then WrongMeter(Get(old(entry.data), CONF_SERIAL_NUMBER), TextOrNothing(info.serialNumber))
                 else ReconfigureSuccessful
    ensures var stored := Get(old(entry.data), CONF_SERIAL_NUMBER);
      r.WrongMeter? <==>
        && stored != Nothing && stored != Text("") && stored != Number(0)
        && (info.serialNumber.None? || stored != Text(info.serialNumber.value))
    ensures r.WrongMeter? ==> entry.data == old(entry.data)
    ensures r.ReconfigureSuccessful? ==>
      && Keeps(entry.data, input, info)
      && forall key :: key !in REPORTED && key !in input ==> Get(entry.data, key) == Get(old(entry.data), key)
  {
    RefusedExactly(entry.data, info);
    var storedSerial := Get(entry.data, CONF_SERIAL_NUMBER);
    if Truthy(storedSerial) && TextOrNothing(info.serialNumber) != storedSerial {
      return WrongMeter(storedSerial, TextOrNothing(info.serialNumber));
    }
    DeviceDataKeeps(entry.data, input, info);
    entry.data := entry.data + DeviceData(input, info);
    return ReconfigureSuccessful;
  }

  // ----- Creating entries

  /** The entries of the integration. Home Assistant aborts a flow whose unique id exists. */
  class Registry {
    var entries: seq<ConfigEntry>

    /** No two entries have the same unique id. */
    ghost predicate Valid()
      reads this
    {
      forall i, j :: 0 <= i < j < |entries| ==> entries[i].uniqueId != entries[j].uniqueId
    }

    constructor ()
      ensures Valid() && entries == []
    {
      entries := [];
    }

    method IsConfigured(uniqueId: string) returns (found: bool)
      ensures found <==> exists i :: 0 <= i < |entries| && entries[i].uniqueId == uniqueId
    {
      for i := 0 to |entries|
        invariant forall k :: 0 <= k < i ==> entries[k].uniqueId != uniqueId
      {
        if entries[i].uniqueId == uniqueId {
          return true;
        }
      }
      return false;
    }

    /** A new entry is for the meter that the probe has found. */
    method StepUser(input: Data, built: Option<Em300Client>) returns (r: FlowResult)
      requires Valid() && FormData(input) && (built.Some? ==> !built.value.locked)
      modifies this, if built.Some? then {built.value} else {}
      ensures Valid()
      ensures built.Some? ==> built.value.closed
      ensures if r.Created? then fresh(r.entry) && entries == old(entries) + [r.entry] else entries == old(entries)
      ensures r.Created? || r.AlreadyConfigured? <==>
        && built.Some? && built.value.connecting(old(built.value.attempts)).None?
        && Identifiable(built.value.meter, |old(built.value.sent)|)
      ensures built.None? ==> r == InvalidPort
      ensures built.Some? && !r.Created? && !r.AlreadyConfigured? ==>
        r == match built.value.connecting(old(built.value.attempts))
             case Some(fault) => if fault == ForeignFault then Crashed(fault) else CannotConnect
             case None => Crashed(ForeignFault)
      ensures r.Created? ==>
        StandsFor(r.entry, input, InfoAnswered(built.value.meter, |old(built.value.sent)|, None))
    {
      if built.None? {
        return InvalidPort;
      }
      var info := Probe(built.value);
      if info.Err? {
        return if info.error.Tolerated() then CannotConnect else Crashed(info.error);
      }
      r := CreateEntry(input, info.value);
    }

    /** An entry is identified by the meter's serial number, or by where the meter lives when it
      has none. Existing entries are never touched. */
    method CreateEntry(input: Data, info: DeviceInfo) returns (r: FlowResult)
      requires Valid() && FormData(input)
      modifies this
      ensures Valid()
      ensures r.Created? || r.AlreadyConfigured?
      ensures var uniqueId := if info.serialNumber.Some? then info.serialNumber.value else FallbackUniqueId(input);
        && (r.Created? ==> r.entry.uniqueId == uniqueId)
        && (r.AlreadyConfigured? <==> exists i :: 0 <= i < |old(entries)| && old(entries)[i].uniqueId == uniqueId)
      ensures if r.Created? then fresh(r.entry) && entries == old(entries) + [r.entry] else entries == old(entries)
      ensures r.Created? ==> StandsFor(r.entry, input, info)
    {
      var uniqueId := UniqueId(input, info);
      var found := IsConfigured(uniqueId);
      if found {
        return AlreadyConfigured;
      }
      NewEntryKeepsItsReport(input, info);
      var entry := new ConfigEntry(uniqueId, NewEntryData(input, info));
      entries := entries + [entry];
      return Created(entry);
    }
  }

  /** The data of a new entry, under the name the meter is shown with. */
  function NewEntryData(input: Data, info: DeviceInfo): Data {
    var name := ModelOf(info) + if info.serialNumber.Some? then " " + info.serialNumber.value else "";
    DeviceData(input, info)[CONF_NAME := Text(name)]
  }

  /** The serial number, or where the meter lives when it has none. */
  function UniqueId(input: Data, info: DeviceInfo): string
    requires FormData(input)
  {
    if info.serialNumber.Some? then info.serialNumber.value else FallbackUniqueId(input)
  }

  /** The settings that come from the meter. */
  const REPORTED: set<string> := {CONF_MODEL, CONF_SERIAL_NUMBER, CONF_FIRMWARE, CONF_SERIES}

  /** The data say what the meter reported and what the form said; the form has no name. */
  predicate Keeps(data: Data, input: Data, info: DeviceInfo) {
    && Get(data, CONF_SERIAL_NUMBER) == TextOrNothing(info.serialNumber)
    && RememberedSeries(data) == info.series
    && Get(data, CONF_MODEL) == Text(ModelOf(info))
    && Get(data, CONF_FIRMWARE) == (if info.firmware.Some? then Version(info.firmware.value) else Nothing)
    && forall key :: key in input && key !in REPORTED && key != CONF_NAME ==> Get(data, key) == input[key]
  }

  lemma {:induction false} DeviceDataKeeps(data: Data, input: Data, info: DeviceInfo)
    ensures Keeps(data + DeviceData(input, info), input, info)
    ensures forall key :: key !in REPORTED && key !in input ==>
      Get(data + DeviceData(input, info), key) == Get(data, key)
  {
  }

  /** The entry is identified by what was found and keeps what was found. */
  predicate StandsFor(entry: ConfigEntry, input: Data, info: DeviceInfo)
    requires FormData(input)
    reads entry
  {
    entry.uniqueId == UniqueId(input, info) && Keeps(entry.data, input, info)
  }

  lemma {:induction false} NewEntryKeepsItsReport(input: Data, info: DeviceInfo)
    ensures Keeps(NewEntryData(input, info), input, info)
  {
  }

  lemma {:induction false} NewEntryRemembers(input: Data, info: DeviceInfo)
    ensures RememberedSeries(NewEntryData(input, info)) == info.series
    ensures Get(NewEntryData(input, info), CONF_SERIAL_NUMBER) == TextOrNothing(info.serialNumber)
  {
  }

  // ----- The series an entry remembers, over whole runs

  /** A setup never touches anything but the series, and a code that is missing or unknown does
    not even touch that. */
  lemma {:induction false} SetupKeepsTheRest(data: Data, event: Event, key: string)
    requires event.Setup?
    ensures key != CONF_SERIES ==> Get(Apply(data, event), key) == Get(data, key)
    ensures !event.reached || SeriesForIdentificationCode(event.code).None? ==> Apply(data, event) == data
  {
    if event.reached && SeriesForIdentificationCode(event.code).None? && RememberedSeries(data).Some? {
      assert Get(data, CONF_SERIES) == Text(SeriesName(RememberedSeries(data).value));
    }
  }

  /** The event at `i` decides what is remembered: a setup that recognised the meter, or a
    successful reconfiguration, whatever it found. */
  ghost predicate Decides(data: Data, events: seq<Event>, i: nat)
    requires i < |events|
  {
    match events[i]
    case Setup(reached, code) => reached && SeriesForIdentificationCode(code).Some?
    case Reconfigure(reached, _, found) => reached && !Refused(DataAfter(data, events[..i]), found)
  }

  function DecidedSeries(event: Event): Option<Series> {
    match event
    case Setup(_, code) => SeriesForIdentificationCode(code)
    case Reconfigure(_, _, found) => found.series
  }

  /** An event that decides makes its series the remembered one; any other changes nothing of it. */
  lemma {:induction false} OneEvent(data: Data, event: Event)
    ensures var decides := match event
              case Setup(reached, code) => reached && SeriesForIdentificationCode(code).Some?
              case Reconfigure(reached, _, found) => reached && !Refused(data, found);
      if decides then RememberedSeries(Apply(data, event)) == DecidedSeries(event)
      else Get(Apply(data, event), CONF_SERIES) == Get(data, CONF_SERIES)
  {
    if event.Setup? {
      SetupKeepsTheRest(data, event, CONF_SERIES);
    }
  }

  /** The event at `i` is the last one of the run that decides. */
  ghost predicate DecidesLast(data: Data, events: seq<Event>, i: nat) {
    && i < |events| && Decides(data, events, i)
    && forall j :: i < j < |events| ==> !Decides(data, events, j)
  }

  /** The series remembered after a run is that of the last event that decided it. */
  lemma {:induction false} SeriesMemory(data: Data, events: seq<Event>, i: nat)
    requires DecidesLast(data, events, i)
    ensures RememberedSeries(DataAfter(data, events)) == DecidedSeries(events[i])
  {
    var n := |events| - 1;
    OneEvent(DataAfter(data, events[..n]), events[n]);
    if i < n {
      assert forall j :: 0 <= j < n ==> events[..n][..j] == events[..j];
      assert !Decides(data, events, n);
      forall j | i < j < n
        ensures !Decides(data, events[..n], j)
      {
        assert !Decides(data, events, j);
      }
      SeriesMemory(data, events[..n], i);
    }
  }

  /** Without such an event the stored series, recognisable or not, stays as it was. */
  lemma {:induction false} SeriesUntouched(data: Data, events: seq<Event>)
    requires forall j :: 0 <= j < |events| ==> !Decides(data, events, j)
    ensures Get(DataAfter(data, events), CONF_SERIES) == Get(data, CONF_SERIES)
  {
    if events != [] {
      var n := |events| - 1;
      assert forall j :: 0 <= j < n ==> events[..n][..j] == events[..j];
      assert !Decides(data, events, n);
      forall j | 0 <= j < n
        ensures !Decides(data, events[..n], j)
      {
        assert !Decides(data, events, j);
      }
      SeriesUntouched(data, events[..n]);
      OneEvent(DataAfter(data, events[..n]), events[n]);
    }
  }

  /** A setup after such a run polls the map for the series of its own code, else for the last
    decided one, else for the one stored in the beginning. */
  lemma {:induction false} PolledSetOverRuns(data: Data, events: seq<Event>, code: Option<int>)
    ensures var own := SeriesForIdentificationCode(code);
      var polled := PolledRegisters(SeriesInUse(DataAfter(data, events), code));
      && (own.Some? ==> polled == PolledRegisters(own))
      && (own.None? ==>
            forall i: nat :: DecidesLast(data, events, i) ==> polled == PolledRegisters(DecidedSeries(events[i])))
      && (own.None? && (forall j :: 0 <= j < |events| ==> !Decides(data, events, j)) ==>
            polled == PolledRegisters(RememberedSeries(data)))
  {
    forall i: nat | DecidesLast(data, events, i)
      ensures RememberedSeries(DataAfter(data, events)) == DecidedSeries(events[i])
    {
      SeriesMemory(data, events, i);
    }
    if forall j :: 0 <= j < |events| ==> !Decides(data, events, j) {
      SeriesUntouched(data, events);
    }
  }

  /** A remembered series is lost exactly in a successful reconfiguration whose probe did not
    recognise the meter. Setups never lose it. */
  lemma {:induction false} MemoryIsLostExactly(data: Data, event: Event)
    requires RememberedSeries(data).Some?
    ensures RememberedSeries(Apply(data, event)).None?
      <==> event.Reconfigure? && event.reached && !Refused(data, event.found) && event.found.series.None?
  {
    OneEvent(data, event);
  }

  /** A meter that leaves the first request without a reply and answers all others with zeros. */
  function SilentOnce(k: nat, request: Request): Reply {
    match request
    case WriteRequest(_, _) => Answer([])
    case ReadRequest(read) =>
      if k == 0 || read.length < 0 then NoReply else Answer(seq(read.length, i requires 0 <= i => 0))
  }

  /** Such a reconfiguration exists: an EM340 without a serial number block is reconfigured with
    its old settings while one reply is missing. The flow accepts that and the entry has forgotten
    the series, so a setup that misses the code too takes the meter for an unknown one. */
  lemma {:induction false} OneFailedProbeForgets()
    ensures var input: Data := map[
                CONF_TRANSPORT := Text("serial"), CONF_SERIAL_PORT := Text("/dev/ttyUSB0"), CONF_ADDRESS := Number(1)];
      var data := NewEntryData(input, DeviceInfo(None, Some(EM340), Some(341), None));
      var silent := Reconfigure(true, input, InfoAnswered(SilentOnce, 0, None));
      && FormData(input) && Identifiable(SilentOnce, 0) && !Refused(data, silent.found)
      && SeriesInUse(data, None) == Some(EM340)
      && SeriesInUse(DataAfter(data, [silent]), None) == None
  {
    var input: Data := map[
      CONF_TRANSPORT := Text("serial"), CONF_SERIAL_PORT := Text("/dev/ttyUSB0"), CONF_ADDRESS := Number(1)];
    var known := DeviceInfo(None, Some(EM340), Some(341), None);
    var data := NewEntryData(input, known);
    var silent := Reconfigure(true, input, InfoAnswered(SilentOnce, 0, None));
    NewEntryRemembers(input, known);
    assert silent.found.identificationCode == None;
    assert [silent][..0] == [];
    assert DataAfter(data, [silent]) == Apply(data, silent);
    OneEvent(data, silent);
  }

  // ----- The identity of the meter, over whole runs

  lemma {:induction false} OneEventKeepsSerial(data: Data, event: Event, stored: Item)
    requires CONF_SERIAL_NUMBER in data && data[CONF_SERIAL_NUMBER] == stored
    requires stored != Nothing && stored != Text("") && stored != Number(0)
    ensures CONF_SERIAL_NUMBER in Apply(data, event) && Apply(data, event)[CONF_SERIAL_NUMBER] == stored
  {
    match event
    case Setup(_, _) => SetupKeepsTheRest(data, event, CONF_SERIAL_NUMBER);
    case Reconfigure(_, _, found) => RefusedExactly(data, found);
  }

  /** A serial number, once stored, is never changed or lost again. */
  lemma {:induction false} SerialIsWriteOnce(data: Data, events: seq<Event>, i: nat, stored: Item)
    requires i <= |events|
    requires var earlier := DataAfter(data, events[..i]);
      CONF_SERIAL_NUMBER in earlier && earlier[CONF_SERIAL_NUMBER] == stored
    requires stored != Nothing && stored != Text("") && stored != Number(0)
    ensures var now := DataAfter(data, events);
      CONF_SERIAL_NUMBER in now && now[CONF_SERIAL_NUMBER] == stored
  {
    if i == |events| {
      assert events[..i] == events;
    } else {
      var n := |events| - 1;
      assert events[..n][..i] == events[..i];
      SerialIsWriteOnce(data, events[..n], i, stored);
      OneEventKeepsSerial(DataAfter(data, events[..n]), events[n], stored);
    }
  }

  /** Over any run the stored serial number stays a text or nothing, if it was to begin with. */
  lemma {:induction false} SerialStaysText(data: Data, events: seq<Event>)
    requires Get(data, CONF_SERIAL_NUMBER).Nothing? || Get(data, CONF_SERIAL_NUMBER).Text?
    ensures var stored := Get(DataAfter(data, events), CONF_SERIAL_NUMBER); stored.Nothing? || stored.Text?
  {
    if events != [] {
      var n := |events| - 1;
      SerialStaysText(data, events[..n]);
      OneEventKeepsText(DataAfter(data, events[..n]), events[n]);
    }
  }

  lemma {:induction false} OneEventKeepsText(data: Data, event: Event)
    requires Get(data, CONF_SERIAL_NUMBER).Nothing? || Get(data, CONF_SERIAL_NUMBER).Text?
    ensures var stored := Get(Apply(data, event), CONF_SERIAL_NUMBER); stored.Nothing? || stored.Text?
  {
    if event.Setup? {
      SetupKeepsTheRest(data, event, CONF_SERIAL_NUMBER);
    }
  }
}
