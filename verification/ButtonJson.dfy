/**
 * Buttons and commands of the hub as values, the text forms of their addresses, and
 * their form in a JSON document.
 */
module ButtonJson {
  import opened Common

  // ---------------------------------------------------------------- addresses and UUIDs as text

  /** The two text forms: six octets with colons, sixteen with dashes. */
  datatype Format = Address | Uuid

  function Count(f: Format): nat {
    if f.Address? then 6 else 16
  }

  function Length(f: Format): nat {
    if f.Address? then 17 else 36
  }

  function Separator(f: Format): char {
    if f.Address? then ':' else '-'
  }

  predicate IsSeparator(f: Format, i: nat) {
    if f.Address? then (i + 1) % 3 == 0 else i == 8 || i == 13 || i == 18 || i == 23
  }

  /** Where the digits of octet k begin. */
  function PlaceOf(f: Format, k: nat): (i: nat)
    requires k < Count(f)
    ensures i + 1 < Length(f) && !IsSeparator(f, i) && !IsSeparator(f, i + 1)
  {
    if f.Address? then 3 * k
    else 2 * k + (if k < 4 then 0 else if k < 6 then 1 else if k < 8 then 2 else if k < 10 then 3 else 4)
  }

  /** Which octet the digit at place i belongs to. */
  function OctetAt(f: Format, i: nat): (k: nat)
    requires i < Length(f) && !IsSeparator(f, i)
    ensures k < Count(f) && (i == PlaceOf(f, k) || i == PlaceOf(f, k) + 1)
  {
    if f.Address? then i / 3
    else (i - (if i < 8 then 0 else if i < 13 then 1 else if i < 18 then 2 else if i < 23 then 3 else 4)) / 2
  }

  function Digit(n: nat): char
    requires n < 16
  {
    "0123456789abcdef"[n]
  }

  predicate IsHex(c: char) {
    '0' <= c <= '9' || 'a' <= c <= 'f' || 'A' <= c <= 'F'
  }

  function HexValue(c: char): (n: nat)
    requires IsHex(c)
    ensures n < 16
  {
    if c <= '9' then c as int - '0' as int
    else if c <= 'F' then c as int - 'A' as int + 10
    else c as int - 'a' as int + 10
  }

  function Lower(c: char): char {
    if 'A' <= c <= 'F' then (c as int + 32) as char else c
  }

  lemma DigitValue(n: nat)
    requires n < 16
    ensures IsHex(Digit(n)) && HexValue(Digit(n)) == n
  {
  }

  lemma ValueDigit(c: char)
    requires IsHex(c)
    ensures Digit(HexValue(c)) == Lower(c)
  {
  }

  /** `SerializeAddressToString` and `SerializeUuidToString`. */
  function Print(f: Format, octets: Bytes): (s: string)
    requires |octets| == Count(f)
    ensures |s| == Length(f)
  {
    seq(Length(f), i requires 0 <= i < Length(f) => CharAt(f, octets, i))
  }

  function CharAt(f: Format, octets: Bytes, i: nat): char
    requires |octets| == Count(f) && i < Length(f)
  {
    if IsSeparator(f, i) then Separator(f)
    else
      var k := OctetAt(f, i);
      if i == PlaceOf(f, k) then Digit(octets[k] / 16) else Digit(octets[k] % 16)
  }

  predicate CharFits(f: Format, c: char, i: nat) {
    if IsSeparator(f, i) then c == Separator(f) else IsHex(c)
  }

  predicate Accepts(f: Format, s: string) {
    |s| == Length(f) && forall i | 0 <= i < |s| :: CharFits(f, s[i], i)
  }

  function OctetOf(f: Format, s: string, k: nat): byte
    requires Accepts(f, s) && k < Count(f)
  {
    var i := PlaceOf(f, k);
    assert CharFits(f, s[i], i) && CharFits(f, s[i + 1], i + 1);
    HexValue(s[i]) * 16 + HexValue(s[i + 1])
  }

  function Parse(f: Format, s: string): Option<Bytes> {
    if Accepts(f, s) then Some(seq(Count(f), k requires 0 <= k < Count(f) => OctetOf(f, s, k))) else None
  }

  /** `DeserializeAddressToString` and `DeserializeUuidToString`: a check of every character, then the digits. */
  method Deserialize(f: Format, data: string) returns (r: Option<Bytes>)
    ensures r == Parse(f, data)
  {
    if |data| != Length(f) {
      return None;
    }
    for i := 0 to |data|
      invariant forall j | 0 <= j < i :: CharFits(f, data[j], j)
    {
      if IsSeparator(f, i) {
        if data[i] != Separator(f) {
          assert !CharFits(f, data[i], i);
          return None;
        }
      } else if !IsHex(data[i]) {
        assert !CharFits(f, data[i], i);
        return None;
      }
    }
    assert Accepts(f, data);
    r := Some(seq(Count(f), k requires 0 <= k < Count(f) => OctetOf(f, data, k)));
  }

  /** Parsing undoes printing. */
  lemma ParsePrinted(f: Format, octets: Bytes)
    requires |octets| == Count(f)
    ensures Parse(f, Print(f, octets)) == Some(octets)
  {
    hide Digit, HexValue, IsHex;
    var s := Print(f, octets);
    forall i | 0 <= i < |s| ensures CharFits(f, s[i], i) {
      if !IsSeparator(f, i) {
        DigitValue(octets[OctetAt(f, i)] / 16);
        DigitValue(octets[OctetAt(f, i)] % 16);
      }
    }
    forall k | 0 <= k < Count(f) ensures OctetOf(f, s, k) == octets[k] {
      OctetReadsBack(f, octets, k);
    }
    assert Parse(f, s).value == octets;
  }

  lemma OctetReadsBack(f: Format, octets: Bytes, k: nat)
    requires |octets| == Count(f) && k < Count(f) && Accepts(f, Print(f, octets))
    ensures OctetOf(f, Print(f, octets), k) == octets[k]
  {
    hide Digit, HexValue, IsHex, Accepts;
    var i := PlaceOf(f, k);
    assert OctetAt(f, i) == k && OctetAt(f, i + 1) == k;
    DigitValue(octets[k] / 16);
    DigitValue(octets[k] % 16);
  }

  /** Printing what was parsed gives the text back in lower case: the printed form is the normal one. */
  lemma PrintParsed(f: Format, s: string)
    requires Accepts(f, s)
    ensures forall i | 0 <= i < |s| :: Print(f, Parse(f, s).value)[i] == if IsSeparator(f, i) then s[i] else Lower(s[i])
  {
    hide Digit, HexValue, IsHex;
    var octets := Parse(f, s).value;
    forall i | 0 <= i < |s| ensures CharAt(f, octets, i) == if IsSeparator(f, i) then s[i] else Lower(s[i]) {
      assert CharFits(f, s[i], i);
      if !IsSeparator(f, i) {
        var k := OctetAt(f, i);
        var p := PlaceOf(f, k);
        assert CharFits(f, s[p], p) && CharFits(f, s[p + 1], p + 1);
        ValueDigit(s[p]);
        ValueDigit(s[p + 1]);
        assert octets[k] == HexValue(s[p]) * 16 + HexValue(s[p + 1]);
      }
    }
  }

  // ---------------------------------------------------------------- what the texts look like

  /** Octets as pairs of lower-case hexadecimal digits, the high one first. */
  function Hex(octets: Bytes): (s: string)
    ensures |s| == 2 * |octets|
  {
    if octets == [] then "" else [HexDigit(octets[0] / 16), HexDigit(octets[0] % 16)] + Hex(octets[1..])
  }

  function HexDigit(n: nat): char
    requires n < 16
  {
    if n < 10 then ('0' as int + n) as char else ('a' as int + n - 10) as char
  }

  lemma {:induction false} HexAt(octets: Bytes, k: nat)
    requires k < |octets|
    ensures Hex(octets)[2 * k] == HexDigit(octets[k] / 16) && Hex(octets)[2 * k + 1] == HexDigit(octets[k] % 16)
    decreases k
  {
    if k > 0 {
      HexAt(octets[1..], k - 1);
    }
  }

  lemma DigitsAt(f: Format, octets: Bytes, k: nat)
    requires |octets| == Count(f) && k < Count(f)
    ensures Print(f, octets)[PlaceOf(f, k)] == HexDigit(octets[k] / 16)
    ensures Print(f, octets)[PlaceOf(f, k) + 1] == HexDigit(octets[k] % 16)
  {
    PlaceInverts(f, k);
    DigitIs(octets[k] / 16);
    DigitIs(octets[k] % 16);
    hide PlaceOf, OctetAt, IsSeparator, Digit, HexDigit;
  }

  lemma PlaceInverts(f: Format, k: nat)
    requires k < Count(f)
    ensures OctetAt(f, PlaceOf(f, k)) == k && OctetAt(f, PlaceOf(f, k) + 1) == k
  {
  }

  lemma DigitIs(n: nat)
    requires n < 16
    ensures Digit(n) == HexDigit(n)
  {
  }

  /** A stretch of a printed text without separators. */
  lemma Stretch(f: Format, octets: Bytes, from: nat, to: nat, place: nat)
    requires |octets| == Count(f) && from <= to <= Count(f) && place + 2 * (to - from) <= Length(f)
    requires forall k | from <= k < to :: PlaceOf(f, k) == place + 2 * (k - from)
    ensures Print(f, octets)[place..place + 2 * (to - from)] == Hex(octets[from..to])
  {
    hide PlaceOf, Print, HexDigit, Hex;
    var s, part := Print(f, octets), octets[from..to];
    forall i | 0 <= i < |Hex(part)| ensures s[place + i] == Hex(part)[i] {
      var k := i / 2;
      HexAt(part, k);
      DigitsAt(f, octets, from + k);
      assert part[k] == octets[from + k] && (i == 2 * k || i == 2 * k + 1);
    }
  }

  lemma SeparatorAt(f: Format, octets: Bytes, i: nat)
    requires |octets| == Count(f) && i < Length(f) && IsSeparator(f, i)
    ensures Print(f, octets)[i] == Separator(f)
  {
  }

  /** Six pairs of digits between colons. */
  lemma PrintedAddress(o: Bytes, k: nat)
    requires |o| == 6 && k < 6
    ensures var s := Print(Address, o);
      |s| == 17 && s[3 * k..3 * k + 2] == Hex(o[k..k + 1]) && (k < 5 ==> s[3 * k + 2] == ':')
  {
    Stretch(Address, o, k, k + 1, 3 * k);
    if k < 5 {
      SeparatorAt(Address, o, 3 * k + 2);
    }
  }

  /** Eight, four, four, four and twelve digits between dashes. */
  lemma PrintedUuid(o: Bytes)
    requires |o| == 16
    ensures var s := Print(Uuid, o);
      && |s| == 36 && s[8] == '-' && s[13] == '-' && s[18] == '-' && s[23] == '-'
      && s[0..8] == Hex(o[0..4]) && s[9..13] == Hex(o[4..6]) && s[14..18] == Hex(o[6..8])
      && s[19..23] == Hex(o[8..10]) && s[24..36] == Hex(o[10..16])
  {
    SeparatorAt(Uuid, o, 8);
    SeparatorAt(Uuid, o, 13);
    SeparatorAt(Uuid, o, 18);
    SeparatorAt(Uuid, o, 23);
    hide Hex, Print;
    Stretch(Uuid, o, 0, 4, 0);
    Stretch(Uuid, o, 4, 6, 9);
    Stretch(Uuid, o, 6, 8, 14);
    Stretch(Uuid, o, 8, 10, 19);
    Stretch(Uuid, o, 10, 16, 24);
  }

  function LowerAll(s: string): (r: string)
    ensures |r| == |s| && forall i | 0 <= i < |s| :: r[i] == Lower(s[i])
  {
    seq(|s|, i requires 0 <= i < |s| => Lower(s[i]))
  }

  /** The texts accepted are the printed ones in either case, and each gives the octets it prints. */
  lemma AcceptedIff(f: Format, s: string, octets: Bytes)
    requires |octets| == Count(f)
    ensures Parse(f, s) == Some(octets) <==> LowerAll(s) == Print(f, octets)
  {
    var t := Print(f, octets);
    if Parse(f, s) == Some(octets) {
      PrintParsed(f, s);
      assert forall i | 0 <= i < |s| :: CharFits(f, s[i], i);
    } else if LowerAll(s) == t {
      ParsePrinted(f, octets);
      hide Digit, Print;
      forall i | 0 <= i < |s| ensures CharFits(f, s[i], i) {
        assert t[i] == Lower(s[i]) && CharFits(f, t[i], i);
      }
      SameOctets(f, s, t);
      assert false;
    }
  }

  lemma SameOctets(f: Format, s: string, t: string)
    requires Accepts(f, s) && Accepts(f, t) && LowerAll(s) == t
    ensures Parse(f, s) == Parse(f, t)
  {
    hide PlaceOf, IsSeparator;
    forall k | 0 <= k < Count(f) ensures OctetOf(f, s, k) == OctetOf(f, t, k) {
      var i := PlaceOf(f, k);
      assert CharFits(f, s[i], i) && CharFits(f, s[i + 1], i + 1);
      assert t[i] == Lower(s[i]) && t[i + 1] == Lower(s[i + 1]);
    }
    assert Parse(f, s).value == Parse(f, t).value;
  }

  // ---------------------------------------------------------------- documents

  /** A JSON value; numbers are integers or reals, objects have no order. */
  datatype Json =
    | Null
    | Bool(b: bool)
    | Int(n: int)
    | Real(r: real)
    | Str(s: string)
    | Obj(fields: map<string, Json>)
    | Arr(items: seq<Json>)

  type Fields = map<string, Json>

  function Get(o: Fields, key: string): Json {
    if key in o then o[key] else Null
  }

  function AsObject(j: Json): Fields {
    if j.Obj? then j.fields else map[]
  }

  /** `as<bool>`: texts, objects and arrays count as true. */
  function AsBool(j: Json): bool {
    match j
    case Null => false
    case Bool(b) => b
    case Int(n) => n != 0
    case Real(r) => r != 0.0
    case _ => true
  }

  /** `as<double>`; a text, which the library would read as a number, is taken to be 0. */
  function AsReal(j: Json): real {
    match j
    case Bool(b) => if b then 1.0 else 0.0
    case Int(n) => n as real
    case Real(r) => r
    case _ => 0.0
  }

  function AsString(j: Json): string {
    if j.Str? then j.s else ""
  }

  /** A real number cut towards zero. */
  function Truncate(r: real): int {
    if r >= 0.0 then r.Floor else -(-r).Floor
  }

  /** `as<T>` for an integer type: a number outside its range reads as 0, and so does a text here. */
  function AsInt(j: Json, low: int, high: int): int {
    match j
    case Bool(b) => if b then 1 else 0
    case Int(n) => if low <= n <= high then n else 0
    case Real(r) => if low as real <= r <= high as real then Truncate(r) else 0
    case _ => 0
  }

  predicate HasKeys(o: Fields, keys: seq<string>) {
    forall i | 0 <= i < |keys| :: keys[i] in o
  }

  // ---------------------------------------------------------------- buttons

  type uint16 = n: int | 0 <= n < 0x1_0000

  datatype Button =
    | Beacon(address: Bytes, uuid: Bytes, major: uint16, minor: uint16)
    | M5(id: byte)
    | Gpio(id: byte)

  predicate ValidButton(b: Button) {
    b.Beacon? ==> |b.address| == Count(Address) && |b.uuid| == Count(Uuid)
  }

  /** `FillButtonJson` into an object that may hold other keys already. */
  function FillButton(b: Button, o: Fields): Fields
    requires ValidButton(b)
  {
    match b
    case Beacon(address, uuid, major, minor) =>
      o["apple_i_beacon" := Obj(map[
        "address" := Str(Print(Address, address)), "uuid" := Str(Print(Uuid, uuid)),
        "major" := Int(major), "minor" := Int(minor)])]
    case M5(id) => o["m5_button" := Obj(map["id" := Int(id)])]
    case Gpio(id) => o["gpio_button" := Obj(map["id" := Int(id)])]
  }

  /** `ConvertButtonJson`; a beacon whose texts do not parse is not a button. */
  function ParseButton(o: Fields): (r: Option<Button>)
    ensures r.Some? ==> ValidButton(r.value)
  {
    if "apple_i_beacon" in o then
      var beacon := AsObject(o["apple_i_beacon"]);
      if !HasKeys(beacon, ["address", "uuid", "major", "minor"]) then None
      else
        var address := Parse(Address, AsString(Get(beacon, "address")));
        var uuid := Parse(Uuid, AsString(Get(beacon, "uuid")));
        if address.None? || uuid.None? then None
        else Some(Beacon(address.value, uuid.value,
                         AsInt(Get(beacon, "major"), 0, 0xFFFF), AsInt(Get(beacon, "minor"), 0, 0xFFFF)))
    else if "m5_button" in o then
      match ParseId(AsObject(o["m5_button"])) case None => None case Some(id) => Some(M5(id))
    else if "gpio_button" in o then
      match ParseId(AsObject(o["gpio_button"])) case None => None case Some(id) => Some(Gpio(id))
    else None
  }

  /** The `int` of the document cut to the `uint8_t` of the button. */
  function ParseId(o: Fields): Option<byte> {
    if "id" in o then Some(AsInt(o["id"], -0x8000_0000, 0x7FFF_FFFF) % 0x100) else None
  }

  predicate NoButtonKeys(o: Fields) {
    "apple_i_beacon" !in o && "m5_button" !in o && "gpio_button" !in o
  }

  /** A button written into an object reads back, whatever else the object says. */
  lemma ButtonRoundTrip(b: Button, o: Fields)
    requires ValidButton(b) && NoButtonKeys(o)
    ensures ParseButton(FillButton(b, o)) == Some(b)
  {
    hide Parse, Print;
    if b.Beacon? {
      ParsePrinted(Address, b.address);
      ParsePrinted(Uuid, b.uuid);
    }
  }

  /** What a reader of the document finds of a button: one section, named after its kind, with these entries. */
  predicate Described(o: Fields, b: Button)
    requires ValidButton(b)
  {
    match b
    case Beacon(address, uuid, major, minor) =>
      "m5_button" !in o && "gpio_button" !in o && Get(o, "apple_i_beacon") == Obj(map[
        "address" := Str(Print(Address, address)), "uuid" := Str(Print(Uuid, uuid)),
        "major" := Int(major), "minor" := Int(minor)])
    case M5(id) => "apple_i_beacon" !in o && "gpio_button" !in o && Get(o, "m5_button") == Obj(map["id" := Int(id)])
    case Gpio(id) => "apple_i_beacon" !in o && "m5_button" !in o && Get(o, "gpio_button") == Obj(map["id" := Int(id)])
  }

  /** A button written into an object is described there, and every other entry stays. */
  lemma FillDescribes(b: Button, o: Fields)
    requires ValidButton(b) && NoButtonKeys(o)
    ensures Described(FillButton(b, o), b)
    ensures forall key | key !in {"apple_i_beacon", "m5_button", "gpio_button"} ::
      (key in FillButton(b, o) <==> key in o) && (key in o ==> FillButton(b, o)[key] == o[key])
  {
    hide Print;
  }

  /** Any document: which button it names, if any, the sections being looked for in this order. */
  lemma ButtonAcceptedIff(o: Fields)
    ensures var beacon, m5, gpio := AsObject(Get(o, "apple_i_beacon")), AsObject(Get(o, "m5_button")),
                                    AsObject(Get(o, "gpio_button"));
      ParseButton(o).Some? <==>
        if "apple_i_beacon" in o then
          && "address" in beacon && "uuid" in beacon && "major" in beacon && "minor" in beacon
          && Accepts(Address, AsString(beacon["address"])) && Accepts(Uuid, AsString(beacon["uuid"]))
        else if "m5_button" in o then "id" in m5
        else "gpio_button" in o && "id" in gpio
    ensures ParseButton(o).Some? ==>
      && (ParseButton(o).value.Beacon? <==> "apple_i_beacon" in o)
      && (ParseButton(o).value.M5? <==> "apple_i_beacon" !in o && "m5_button" in o)
  {
    hide Accepts, OctetOf;
    var keys := ["address", "uuid", "major", "minor"];
    assert keys[0] == "address" && keys[1] == "uuid" && keys[2] == "major" && keys[3] == "minor";
  }

  // ---------------------------------------------------------------- commands

  /** The command types the hub can store, with what each needs. */
  datatype Task =
    | MoveShelf(shelf: string, location: string, undock: bool)
    | ReturnShelf(shelf: string)
    | UndockShelf(shelf: string)
    | MoveToLocation(location: string)
    | ReturnHome
    | Speak(text: string)
    | DockAnyShelf(location: string, forward: bool)
    | Shortcut(id: string)
    | SetEmergencyStop
    | Proceed
    | CancelCommand
    | HttpGet(url: string)
    | HttpPost(url: string, body: string)

  datatype Command = Command(task: Task, cancelAll: bool, tts: string, deferrable: bool, lock: real)

  function TypeCode(t: Task): int {
    match t
    case MoveShelf(_, _, _) => 1
    case ReturnShelf(_) => 2
    case UndockShelf(_) => 5
    case MoveToLocation(_) => 7
    case ReturnHome => 8
    case Speak(_) => 12
    case DockAnyShelf(_, _) => 18
    case Proceed => 1000
    case CancelCommand => 1001
    case Shortcut(_) => 1002
    case SetEmergencyStop => 1003
    case HttpGet(_) => 2000
    case HttpPost(_, _) => 2001
  }

  /** The part of a command document that depends on its type. */
  function TaskFields(t: Task): Fields {
    match t
    case MoveShelf(shelf, location, _) =>
      map["move_shelf" := Obj(map["shelf_id" := Str(shelf), "location_id" := Str(location)])]
    case ReturnShelf(shelf) => map["return_shelf" := Obj(map["shelf_id" := Str(shelf)])]
    case MoveToLocation(location) => map["move_to_location" := Obj(map["location_id" := Str(location)])]
    case Speak(text) => map["speak" := Obj(map["text" := Str(text)])]
    case DockAnyShelf(location, forward) =>
      map["dock_any_shelf" := Obj(map["location_id" := Str(location), "dock_forward" := Bool(forward)])]
    case Shortcut(id) => map["shortcut" := Obj(map["shortcut_id" := Str(id)])]
    case HttpGet(url) => map["http_get" := Obj(map["url" := Str(url)])]
    case HttpPost(url, body) => map["http_post" := Obj(map["url" := Str(url), "body" := Str(body)])]
    case _ => map[]
  }

  function CommonFields(c: Command): Fields {
    var o: Fields := map["type" := Int(TypeCode(c.task)), "cancel_all" := Bool(c.cancelAll),
                         "deferrable" := Bool(c.deferrable)];
    var o1 := if c.tts == "" then o else o["tts_on_success" := Str(c.tts)];
    if LongLock(c.lock) then o1["lock_duration_sec" := Real(c.lock)] else o1
  }

  predicate LongLock(r: real) {
    r > 0.001 || r < -0.001
  }

  /** `FillCommandJson`. */
  function CommandFields(c: Command): Fields {
    CommonFields(c) + TaskFields(c.task)
  }

  /** The number a command type goes by and the section it has, if any. */
  function Kind(t: Task): (int, Fields) {
    match t
    case MoveShelf(s, l, _) => (1, map["move_shelf" := Obj(map["shelf_id" := Str(s), "location_id" := Str(l)])])
    case ReturnShelf(s) => (2, map["return_shelf" := Obj(map["shelf_id" := Str(s)])])
    case UndockShelf(_) => (5, map[])
    case MoveToLocation(l) => (7, map["move_to_location" := Obj(map["location_id" := Str(l)])])
    case ReturnHome => (8, map[])
    case Speak(text) => (12, map["speak" := Obj(map["text" := Str(text)])])
    case DockAnyShelf(l, f) =>
      (18, map["dock_any_shelf" := Obj(map["location_id" := Str(l), "dock_forward" := Bool(f)])])
    case Proceed => (1000, map[])
    case CancelCommand => (1001, map[])
    case Shortcut(id) => (1002, map["shortcut" := Obj(map["shortcut_id" := Str(id)])])
    case SetEmergencyStop => (1003, map[])
    case HttpGet(url) => (2000, map["http_get" := Obj(map["url" := Str(url)])])
    case HttpPost(url, body) => (2001, map["http_post" := Obj(map["url" := Str(url), "body" := Str(body)])])
  }

  /**
   * What a reader of the document finds of a command: its number, its options, the text and the lock only if they
   * say something, its section, and nothing else.
   */
  predicate CommandDescribed(o: Fields, c: Command) {
    && Get(o, "type") == Int(Kind(c.task).0)
    && Get(o, "cancel_all") == Bool(c.cancelAll) && Get(o, "deferrable") == Bool(c.deferrable)
    && ("tts_on_success" in o <==> c.tts != "") && (c.tts != "" ==> o["tts_on_success"] == Str(c.tts))
    && ("lock_duration_sec" in o <==> c.lock < -0.001 || c.lock > 0.001)
    && ("lock_duration_sec" in o ==> o["lock_duration_sec"] == Real(c.lock))
    && (forall key | key in Kind(c.task).1 :: key in o && o[key] == Kind(c.task).1[key])
    && forall key | key in o ::
         key in {"type", "cancel_all", "deferrable", "tts_on_success", "lock_duration_sec"} || key in Kind(c.task).1
  }

  lemma CommandIsDescribed(c: Command)
    ensures CommandDescribed(CommandFields(c), c)
  {
    assert TypeCode(c.task) == Kind(c.task).0 && TaskFields(c.task) == Kind(c.task).1;
    NotCommon(c.task, "cancel_all");
    NotCommon(c.task, "tts_on_success");
    NotCommon(c.task, "deferrable");
    NotCommon(c.task, "lock_duration_sec");
    assert "type" !in TaskFields(c.task);
    hide TaskFields, Kind, TypeCode;
  }

  /** What `ConvertCommandJson` reads before it looks at the type. */
  function ParseCommon(o: Fields, t: Task): (r: Command)
    ensures r.task == t
  {
    Command(t, AsBool(Get(o, "cancel_all")),
            if "tts_on_success" in o && o["tts_on_success"].Str? then o["tts_on_success"].s else "",
            AsBool(Get(o, "deferrable")), AsReal(Get(o, "lock_duration_sec")))
  }

  function Bare(t: Task): Command {
    Command(t, false, "", false, 0.0)
  }

  /** The object under `key`, if it is there with all its keys. */
  function Section(o: Fields, key: string, keys: seq<string>): Option<Fields> {
    if key in o && HasKeys(AsObject(o[key]), keys) then Some(AsObject(o[key])) else None
  }

  function TextAt(o: Fields, key: string): string {
    AsString(Get(o, key))
  }

  /** The command part of `ConvertCommandJson`, for the types it knows. */
  function ParseCommand(o: Fields): Option<Command> {
    var kind := AsInt(Get(o, "type"), -0x8000_0000, 0x7FFF_FFFF);
    if kind == 1 then
      match Section(o, "move_shelf", ["shelf_id", "location_id"])
      case None => None
      case Some(m) => Some(ParseCommon(o, MoveShelf(TextAt(m, "shelf_id"), TextAt(m, "location_id"), false)))
    else if kind == 2 then
      match Section(o, "return_shelf", ["shelf_id"])
      case None => None
      case Some(m) => Some(ParseCommon(o, ReturnShelf(TextAt(m, "shelf_id"))))
    else if kind == 5 then Some(ParseCommon(o, UndockShelf("")))
    else if kind == 7 then
      match Section(o, "move_to_location", ["location_id"])
      case None => None
      case Some(m) => Some(ParseCommon(o, MoveToLocation(TextAt(m, "location_id"))))
    else if kind == 8 then Some(ParseCommon(o, ReturnHome))
    else if kind == 1002 then
      match Section(o, "shortcut", ["shortcut_id"])
      case None => None
      case Some(m) => Some(ParseCommon(o, Shortcut(TextAt(m, "shortcut_id"))))
    else if kind == 12 then
      match Section(o, "speak", ["text"])
      case None => None
      case Some(m) => Some(ParseCommon(o, Speak(TextAt(m, "text"))))
    else if kind == 18 then
      match Section(o, "dock_any_shelf", ["location_id", "dock_forward"])
      case None => None
      case Some(m) => Some(ParseCommon(o, DockAnyShelf(TextAt(m, "location_id"), AsBool(Get(m, "dock_forward")))))
    else ParseBare(o, kind)
  }

  /** The types for which everything but their own part is set to a default. */
  function ParseBare(o: Fields, kind: int): Option<Command> {
    if kind == 1000 then Some(Bare(Proceed))
    else if kind == 1001 then Some(Bare(CancelCommand))
    else if kind == 1003 then Some(Bare(SetEmergencyStop))
    else if kind == 2000 then
      match Section(o, "http_get", ["url"])
      case None => None
      case Some(m) => Some(Bare(HttpGet(TextAt(m, "url"))))
    else if kind == 2001 then
      match Section(o, "http_post", ["url", "body"])
      case None => None
      case Some(m) => Some(Bare(HttpPost(TextAt(m, "url"), TextAt(m, "body"))))
    else None
  }

  predicate IsBare(t: Task) {
    t.Proceed? || t.CancelCommand? || t.SetEmergencyStop? || t.HttpGet? || t.HttpPost?
  }

  /** What a command of each known type has to bring along: the section it is in and the keys in that section. */
  function Needed(kind: int): Option<(string, seq<string>)> {
    if kind == 1 then Some(("move_shelf", ["shelf_id", "location_id"]))
    else if kind == 2 then Some(("return_shelf", ["shelf_id"]))
    else if kind == 7 then Some(("move_to_location", ["location_id"]))
    else if kind == 12 then Some(("speak", ["text"]))
    else if kind == 18 then Some(("dock_any_shelf", ["location_id", "dock_forward"]))
    else if kind == 1002 then Some(("shortcut", ["shortcut_id"]))
    else if kind == 2000 then Some(("http_get", ["url"]))
    else if kind == 2001 then Some(("http_post", ["url", "body"]))
    else None
  }

  /**
   * Any document, well-formed or not: it is taken for a command exactly when its type is known and what the type
   * needs is there, and the command is of that type.
   */
  lemma CommandAcceptedIff(o: Fields)
    ensures var kind := AsInt(Get(o, "type"), -0x8000_0000, 0x7FFF_FFFF);
      ParseCommand(o).Some? <==>
        || kind in {5, 8, 1000, 1001, 1003}
        || match Needed(kind)
           case None => false
           case Some((section, keys)) => section in o && HasKeys(AsObject(o[section]), keys)
    ensures ParseCommand(o).Some? ==>
      Kind(ParseCommand(o).value.task).0 == AsInt(Get(o, "type"), -0x8000_0000, 0x7FFF_FFFF)
  {
    hide ParseCommon, TextAt, AsBool, HasKeys;
  }

  /** Whether to undock at the destination is not stored, nor the shelf to undock. */
  function NormalTask(t: Task): Task {
    match t
    case MoveShelf(shelf, location, _) => MoveShelf(shelf, location, false)
    case UndockShelf(_) => UndockShelf("")
    case _ => t
  }

  /** What is left of a command once it has been stored and read back. */
  function Normal(c: Command): Command {
    if IsBare(c.task) then Bare(c.task)
    else Command(NormalTask(c.task), c.cancelAll, c.tts, c.deferrable, if LongLock(c.lock) then c.lock else 0.0)
  }

  lemma NormalIsIdempotent(c: Command)
    ensures Normal(Normal(c)) == Normal(c)
  {
  }

  /** A command reads back in its normal form. */
  lemma CommandRoundTrip(c: Command)
    ensures ParseCommand(CommandFields(c)) == Some(Normal(c))
  {
    var o := CommandFields(c);
    TypeReadsBack(c);
    if IsBare(c.task) {
      BareReadsBack(c);
    } else {
      CommonReadsBack(c, NormalTask(c.task));
      TaskReadsBack(c);
    }
  }

  /** The commands of which storing loses nothing. */
  predicate Survives(c: Command) {
    if IsBare(c.task) then !c.cancelAll && c.tts == "" && !c.deferrable && c.lock == 0.0
    else
      && (c.task.MoveShelf? ==> !c.task.undock) && (c.task.UndockShelf? ==> c.task.shelf == "")
      && (LongLock(c.lock) || c.lock == 0.0)
  }

  /** A command reads back unchanged exactly when it is one of those. */
  lemma CommandSurvivesIff(c: Command)
    ensures ParseCommand(CommandFields(c)) == Some(c) <==> Survives(c)
  {
    hide ParseCommand, CommandFields;
    CommandRoundTrip(c);
  }

  /** A request that was to cancel the others, speak and lock comes back as one that does none of it. */
  lemma RequestOptionsAreLost(url: string)
    ensures ParseCommand(CommandFields(Command(HttpGet(url), true, "done", true, 5.0))) == Some(Bare(HttpGet(url)))
  {
    hide ParseCommand, CommandFields;
    CommandRoundTrip(Command(HttpGet(url), true, "done", true, 5.0));
  }

  lemma TypeReadsBack(c: Command)
    ensures AsInt(Get(CommandFields(c), "type"), -0x8000_0000, 0x7FFF_FFFF) == TypeCode(c.task)
  {
    assert "type" !in TaskFields(c.task);
  }

  /** The section of a command is found under its key as it was written. */
  lemma SectionReadsBack(c: Command, key: string, m: Fields, keys: seq<string>)
    requires TaskFields(c.task) == map[key := Obj(m)] && HasKeys(m, keys)
    ensures Section(CommandFields(c), key, keys) == Some(m)
  {
    hide CommonFields;
  }

  lemma BareReadsBack(c: Command)
    requires IsBare(c.task)
    ensures ParseBare(CommandFields(c), TypeCode(c.task)) == Some(Bare(c.task))
  {
    hide CommandFields, Section;
    if c.task.HttpGet? {
      SectionReadsBack(c, "http_get", map["url" := Str(c.task.url)], ["url"]);
    } else if c.task.HttpPost? {
      SectionReadsBack(c, "http_post", map["url" := Str(c.task.url), "body" := Str(c.task.body)], ["url", "body"]);
    }
  }

  lemma TaskReadsBack(c: Command)
    requires !IsBare(c.task)
    ensures AsInt(Get(CommandFields(c), "type"), -0x8000_0000, 0x7FFF_FFFF) == TypeCode(c.task)
      ==> ParseCommand(CommandFields(c)) == Some(ParseCommon(CommandFields(c), NormalTask(c.task)))
  {
    hide CommandFields, Section, ParseCommon, ParseBare;
    var t := c.task;
    if t.MoveShelf? {
      SectionReadsBack(c, "move_shelf", map["shelf_id" := Str(t.shelf), "location_id" := Str(t.location)],
                       ["shelf_id", "location_id"]);
    } else if t.ReturnShelf? {
      SectionReadsBack(c, "return_shelf", map["shelf_id" := Str(t.shelf)], ["shelf_id"]);
    } else if t.MoveToLocation? {
      SectionReadsBack(c, "move_to_location", map["location_id" := Str(t.location)], ["location_id"]);
    } else if t.Speak? {
      SectionReadsBack(c, "speak", map["text" := Str(t.text)], ["text"]);
    } else if t.DockAnyShelf? {
      SectionReadsBack(c, "dock_any_shelf", map["location_id" := Str(t.location), "dock_forward" := Bool(t.forward)],
                       ["location_id", "dock_forward"]);
    } else if t.Shortcut? {
      SectionReadsBack(c, "shortcut", map["shortcut_id" := Str(t.id)], ["shortcut_id"]);
    }
  }

  lemma CommonReadsBack(c: Command, t: Task)
    ensures ParseCommon(CommandFields(c), t)
         == Command(t, c.cancelAll, c.tts, c.deferrable, if LongLock(c.lock) then c.lock else 0.0)
  {
    NotCommon(c.task, "cancel_all");
    NotCommon(c.task, "tts_on_success");
    NotCommon(c.task, "deferrable");
    NotCommon(c.task, "lock_duration_sec");
    hide TaskFields;
    var o := CommandFields(c);
    var p := CommonFields(c);
    assert Get(o, "cancel_all") == Get(p, "cancel_all") && Get(o, "deferrable") == Get(p, "deferrable");
    assert Get(o, "lock_duration_sec") == Get(p, "lock_duration_sec");
    assert ("tts_on_success" in o <==> "tts_on_success" in p) && Get(o, "tts_on_success") == Get(p, "tts_on_success");
  }

  /** No section of a command goes by the name of a common key. */
  lemma NotCommon(t: Task, key: string)
    requires key == "cancel_all" || key == "tts_on_success" || key == "deferrable" || key == "lock_duration_sec"
    ensures key !in TaskFields(t)
  {
  }
}
