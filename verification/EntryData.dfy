/** The data of a config entry and the identifiers made from it (config_flow.py). */
module EntryData {
  import opened Wrappers
  import opened Registers
  import Device

  /** A stored value; `Nothing` is Python's `None`. */
  datatype Item = Nothing | Text(s: string) | Number(n: int) | Version(firmware: Device.Firmware)

  type Data = map<string, Item>

  const CONF_TRANSPORT := "transport"
  const CONF_SERIAL_PORT := "serial_port"
  const CONF_HOST := "host"
  const CONF_PORT := "port"
  const CONF_ADDRESS := "address"
  const CONF_NAME := "name"
  const CONF_MODEL := "model"
  const CONF_SERIAL_NUMBER := "serial_number"
  const CONF_FIRMWARE := "firmware"
  const CONF_SERIES := "series"

  const TRANSPORT_TCP := "tcp"
  const DEFAULT_ADDRESS := 1

  /** `data.get(key)`. */
  function Get(data: Data, key: string): Item {
    if key in data then data[key] else Nothing
  }

  /** Python's truth value. */
  predicate Truthy(item: Item) {
    match item
    case Nothing => false
    case Text(s) => s != []
    case Number(n) => n != 0
    case Version(_) => true
  }

  function TextOrNothing(s: Option<string>): Item {
    if s.Some? then Text(s.value) else Nothing
  }

  // ----- Decimal numbers

  function Digit(d: nat): char
    requires d < 10
  {
    ('0' as int + d) as char
  }

  function Digits(n: nat): (s: string)
    ensures s != []
    ensures forall c :: c in s ==> '0' <= c <= '9'
  {
    if n < 10 then [Digit(n)] else Digits(n / 10) + [Digit(n % 10)]
  }

  /** Python's `str(n)`. */
  function Decimal(n: int): string {
    if n < 0 then ['-'] + Digits(0 - n) else Digits(n)
  }

  /** The number that a string of digits stands for. */
  function Parsed(s: string): int {
    if s == [] then 0 else 10 * Parsed(s[..|s| - 1]) + (s[|s| - 1] as int - '0' as int)
  }

  lemma {:induction false} ParsedDigits(n: nat)
    ensures Parsed(Digits(n)) == n
  {
    if n < 10 {
      assert Digits(n)[..0] == [];
    } else {
      ParsedDigits(n / 10);
      var front := Digits(n / 10);
      assert (front + [Digit(n % 10)])[..|front|] == front;
    }
  }

  lemma {:induction false} DecimalIsInjective(m: int, n: int)
    requires Decimal(m) == Decimal(n)
    ensures m == n
  {
    assert Digits(if m < 0 then 0 - m else m)[0] != '-' by {
      assert Digits(if m < 0 then 0 - m else m)[0] in Digits(if m < 0 then 0 - m else m);
    }
    assert Digits(if n < 0 then 0 - n else n)[0] != '-' by {
      assert Digits(if n < 0 then 0 - n else n)[0] in Digits(if n < 0 then 0 - n else n);
    }
    assert Decimal(m)[0] == Decimal(n)[0];
    assert m < 0 <==> n < 0;
    if m < 0 {
      assert Decimal(m)[1..] == Digits(0 - m) && Decimal(n)[1..] == Digits(0 - n);
      ParsedDigits(0 - m);
      ParsedDigits(0 - n);
    } else {
      ParsedDigits(m);
      ParsedDigits(n);
    }
  }

  lemma {:induction false} DecimalHasNoColon(n: int)
    ensures ':' !in Decimal(n)
  {
  }

  lemma {:induction false} NoColonBehind(p: string, s: string)
    requires ':' !in s
    ensures var u := p + [':'] + s; forall k :: |p| < k < |u| ==> u[k] != ':'
  {
    var u := p + [':'] + s;
    assert forall k :: |p| < k < |u| ==> u[k] == s[k - |p| - 1];
  }

  /** The last colon splits a string whose tail has none. */
  lemma {:induction false} LastColonSplits(p: string, s: string, q: string, t: string)
    requires ':' !in s && ':' !in t
    requires p + [':'] + s == q + [':'] + t
    ensures p == q && s == t
  {
    var u, v := p + [':'] + s, q + [':'] + t;
    assert u[|p|] == ':' && v[|q|] == ':';
    NoColonBehind(p, s);
    NoColonBehind(q, t);
    assert |p| == |q|;
    assert p == u[..|p|] && q == v[..|q|] && s == u[|p| + 1..] && t == v[|q| + 1..];
  }

  // ----- Identifiers

  /** The settings a connection form has delivered. */
  predicate FormData(data: Data) {
    && CONF_TRANSPORT in data
    && (CONF_ADDRESS in data ==> data[CONF_ADDRESS].Number?)
    && if data[CONF_TRANSPORT] == Text(TRANSPORT_TCP)
       then CONF_HOST in data && data[CONF_HOST].Text? && CONF_PORT in data && data[CONF_PORT].Number?
       else CONF_SERIAL_PORT in data && data[CONF_SERIAL_PORT].Text?
  }

  function AddressOf(data: Data): int
    requires FormData(data)
  {
    if CONF_ADDRESS in data then data[CONF_ADDRESS].n else DEFAULT_ADDRESS
  }

  /** Where a meter lives, for meters that have no serial number. */
  function FallbackUniqueId(data: Data): string
    requires FormData(data)
  {
    if data[CONF_TRANSPORT] == Text(TRANSPORT_TCP)
    then data[CONF_HOST].s + [':'] + Decimal(data[CONF_PORT].n) + [':'] + Decimal(AddressOf(data))
    else data[CONF_SERIAL_PORT].s + [':'] + Decimal(AddressOf(data))
  }

  /** Within one transport, equal fallback ids mean the same place, even when the port path or
    the host has colons of its own. */
  lemma {:induction false} FallbackIdsAreInjective(a: Data, b: Data)
    requires FormData(a) && FormData(b)
    requires a[CONF_TRANSPORT] == Text(TRANSPORT_TCP) <==> b[CONF_TRANSPORT] == Text(TRANSPORT_TCP)
    requires FallbackUniqueId(a) == FallbackUniqueId(b)
    ensures (if CONF_ADDRESS in a then a[CONF_ADDRESS] else Number(1))
      == (if CONF_ADDRESS in b then b[CONF_ADDRESS] else Number(1))
    ensures if a[CONF_TRANSPORT] == Text(TRANSPORT_TCP)
            then a[CONF_HOST] == b[CONF_HOST] && a[CONF_PORT] == b[CONF_PORT]
            else a[CONF_SERIAL_PORT] == b[CONF_SERIAL_PORT]
  {
    var x, y := Decimal(AddressOf(a)), Decimal(AddressOf(b));
    DecimalHasNoColon(AddressOf(a));
    DecimalHasNoColon(AddressOf(b));
    if a[CONF_TRANSPORT] == Text(TRANSPORT_TCP) {
      var (m, n) := (a[CONF_PORT].n, b[CONF_PORT].n);
      var p, q := a[CONF_HOST].s + [':'] + Decimal(m), b[CONF_HOST].s + [':'] + Decimal(n);
      LastColonSplits(p, x, q, y);
      DecimalHasNoColon(m);
      DecimalHasNoColon(n);
      LastColonSplits(a[CONF_HOST].s, Decimal(m), b[CONF_HOST].s, Decimal(n));
      DecimalIsInjective(m, n);
    } else {
      LastColonSplits(a[CONF_SERIAL_PORT].s, x, b[CONF_SERIAL_PORT].s, y);
    }
    DecimalIsInjective(AddressOf(a), AddressOf(b));
  }

  /** The display name of a meter. */
  function ModelOf(info: Device.DeviceInfo): string {
    if info.series.Some? then SeriesName(info.series.value)
    else if info.identificationCode.Some? then "EM/ET300 (code " + Decimal(info.identificationCode.value) + ")"
    else "EM/ET300"
  }

  /** The connection settings together with what the meter reported. */
  function DeviceData(data: Data, info: Device.DeviceInfo): Data {
    data + map[
      CONF_MODEL := Text(ModelOf(info)),
      CONF_SERIAL_NUMBER := TextOrNothing(info.serialNumber),
      CONF_FIRMWARE := if info.firmware.Some? then Version(info.firmware.value) else Nothing,
      CONF_SERIES := if info.series.Some? then Text(SeriesName(info.series.value)) else Nothing
    ]
  }

  /** The series an entry remembers; anything that is not a known series counts as none. */
  function RememberedSeries(data: Data): Option<Series> {
    var stored := Get(data, CONF_SERIES);
    if stored.Text? then SeriesFromValue(Some(stored.s)) else None
  }
}
