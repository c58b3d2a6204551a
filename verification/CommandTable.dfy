/**
 * The hub's command table: which buttons were seen lately, which command each button
 * triggers, what the buttons are called, and how all that outlives a restart.
 */
module CommandTables {
  import opened Common
  import opened ButtonJson

  /** `ButtonCommandPair`. */
  datatype Pair = Pair(button: Button, command: Command)

  /** `ObservedButton`; a negative distance means it is not known. */
  datatype Observed = Observed(timestamp: int, distance: real, button: Button)

  // ---------------------------------------------------------------- lists without a button

  /** `std::remove_if` for the pairs of a button. */
  function Without(cs: seq<Pair>, b: Button): (r: seq<Pair>)
    ensures |r| <= |cs| && forall p | p in r :: p in cs && p.button != b
  {
    if cs == [] then []
    else (if cs[0].button == b then [] else [cs[0]]) + Without(cs[1..], b)
  }

  predicate Registered(cs: seq<Pair>, b: Button) {
    exists i | 0 <= i < |cs| :: cs[i].button == b
  }

  /** The command of the first pair with the button. */
  function Lookup(cs: seq<Pair>, b: Button): (r: Option<Command>)
    ensures r.None? <==> !Registered(cs, b)
  {
    if cs == [] then None else if cs[0].button == b then Some(cs[0].command) else Lookup(cs[1..], b)
  }

  predicate NoButtonTwice(cs: seq<Pair>) {
    forall i, j | 0 <= i < j < |cs| :: cs[i].button != cs[j].button
  }

  /** `SetCommandLocked`, the list part: the button's old pair goes and the new one comes last. */
  function SetIn(cs: seq<Pair>, b: Button, c: Command): seq<Pair> {
    Without(cs, b) + [Pair(b, c)]
  }

  lemma {:induction false} WithoutLookup(cs: seq<Pair>, b: Button, other: Button)
    ensures Lookup(Without(cs, b), other) == if other == b then None else Lookup(cs, other)
  {
    if cs != [] {
      WithoutLookup(cs[1..], b, other);
      var rest := Without(cs[1..], b);
      if cs[0].button == b {
        assert [] + rest == rest;
      } else {
        assert ([cs[0]] + rest)[1..] == rest;
      }
    }
  }

  lemma {:induction false} WithoutOnce(cs: seq<Pair>, b: Button)
    requires NoButtonTwice(cs)
    ensures NoButtonTwice(Without(cs, b))
  {
    if cs != [] {
      WithoutOnce(cs[1..], b);
      var rest := Without(cs[1..], b);
      forall i | 0 <= i < |rest| ensures rest[i].button != cs[0].button {
        assert rest[i] in cs[1..];
      }
    }
  }

  lemma {:induction false} LookupAppend(cs: seq<Pair>, p: Pair, b: Button)
    ensures Lookup(cs + [p], b)
         == if Lookup(cs, b).Some? then Lookup(cs, b) else if p.button == b then Some(p.command) else None
  {
    if cs == [] {
      assert cs + [p] == [p] && [p][1..] == [];
    } else {
      assert (cs + [p])[1..] == cs[1..] + [p];
      LookupAppend(cs[1..], p, b);
    }
  }

  /** After a command is set, its button has that command and every other button the one it had. */
  lemma SetIsFound(cs: seq<Pair>, b: Button, c: Command, other: Button)
    requires NoButtonTwice(cs)
    ensures NoButtonTwice(SetIn(cs, b, c))
    ensures Lookup(SetIn(cs, b, c), other) == if other == b then Some(c) else Lookup(cs, other)
  {
    WithoutOnce(cs, b);
    WithoutLookup(cs, b, other);
    LookupAppend(Without(cs, b), Pair(b, c), other);
  }

  // ---------------------------------------------------------------- recently observed buttons

  function WithoutSeen(os: seq<Observed>, b: Button): (r: seq<Observed>)
    ensures |r| <= |os| && forall o | o in r :: o in os && o.button != b
  {
    if os == [] then []
    else (if os[0].button == b then [] else [os[0]]) + WithoutSeen(os[1..], b)
  }

  /** Every button of a history once, the one seen last in front. */
  function Latest(history: seq<Observed>): seq<Observed> {
    if history == [] then []
    else
      var last := history[|history| - 1];
      [last] + WithoutSeen(Latest(history[..|history| - 1]), last.button)
  }

  function Take(os: seq<Observed>, n: nat): (r: seq<Observed>)
    ensures |r| == Min(|os|, n) && r <= os
  {
    os[..Min(|os|, n)]
  }

  predicate SeenOnce(os: seq<Observed>) {
    forall i, j | 0 <= i < j < |os| :: os[i].button != os[j].button
  }

  lemma {:induction false} WithoutSeenOnce(os: seq<Observed>, b: Button)
    requires SeenOnce(os)
    ensures SeenOnce(WithoutSeen(os, b))
  {
    if os != [] {
      WithoutSeenOnce(os[1..], b);
      var rest := WithoutSeen(os[1..], b);
      forall i | 0 <= i < |rest| ensures rest[i].button != os[0].button {
        assert rest[i] in os[1..];
      }
    }
  }

  lemma {:induction false} LatestOnce(history: seq<Observed>)
    ensures SeenOnce(Latest(history))
  {
    if history != [] {
      LatestOnce(history[..|history| - 1]);
      WithoutSeenOnce(Latest(history[..|history| - 1]), history[|history| - 1].button);
    }
  }

  /** When a button was last seen: a place in the history, or -1. */
  function LastAt(history: seq<Observed>, b: Button): (k: int)
    ensures -1 <= k < |history|
    ensures k >= 0 ==> history[k].button == b
    ensures forall j | k < j < |history| :: history[j].button != b
  {
    if history == [] then -1
    else if history[|history| - 1].button == b then |history| - 1
    else LastAt(history[..|history| - 1], b)
  }

  /** Every button kept is kept as it was last seen. */
  predicate AsLastSeen(history: seq<Observed>, os: seq<Observed>) {
    forall i | 0 <= i < |os| :: LastAt(history, os[i].button) >= 0 && os[i] == history[LastAt(history, os[i].button)]
  }

  predicate NewestFirst(history: seq<Observed>, os: seq<Observed>) {
    forall i, j | 0 <= i < j < |os| :: LastAt(history, os[i].button) > LastAt(history, os[j].button)
  }

  predicate Contains(os: seq<Observed>, b: Button) {
    exists i :: 0 <= i < |os| && os[i].button == b
  }

  predicate Covers(history: seq<Observed>, os: seq<Observed>) {
    forall k | 0 <= k < |history| :: Contains(os, history[k].button)
  }

  lemma NewestTail(history: seq<Observed>, os: seq<Observed>)
    requires NewestFirst(history, os) && os != []
    ensures NewestFirst(history, os[1..])
    ensures forall o | o in os[1..] :: LastAt(history, os[0].button) > LastAt(history, o.button)
  {
    hide LastAt;
  }

  lemma NewestCons(history: seq<Observed>, o: Observed, rest: seq<Observed>)
    requires NewestFirst(history, rest)
    requires forall x | x in rest :: LastAt(history, o.button) > LastAt(history, x.button)
    ensures NewestFirst(history, [o] + rest)
  {
    hide LastAt;
    var all := [o] + rest;
    assert forall i | 0 < i < |all| :: all[i] == rest[i - 1] && all[i] in rest;
  }

  lemma {:induction false} WithoutKeepsOrder(history: seq<Observed>, os: seq<Observed>, b: Button)
    requires NewestFirst(history, os)
    ensures NewestFirst(history, WithoutSeen(os, b))
  {
    hide LastAt, NewestFirst;
    if os == [] {
    } else {
      NewestTail(history, os);
      WithoutKeepsOrder(history, os[1..], b);
      var rest := WithoutSeen(os[1..], b);
      if os[0].button != b {
        NewestCons(history, os[0], rest);
      } else {
        assert [] + rest == rest;
      }
    }
  }

  lemma {:induction false} WithoutKeepsOthers(os: seq<Observed>, b: Button, x: Button)
    requires x != b && Contains(os, x)
    ensures Contains(WithoutSeen(os, b), x)
  {
    var i :| 0 <= i < |os| && os[i].button == x;
    var rest := WithoutSeen(os[1..], b);
    if i == 0 {
      assert ([os[0]] + rest)[0].button == x;
    } else {
      assert os[1..][i - 1].button == x;
      WithoutKeepsOthers(os[1..], b, x);
      var j :| 0 <= j < |rest| && rest[j].button == x;
      if os[0].button != b {
        assert ([os[0]] + rest)[j + 1].button == x;
      } else {
        assert ([] + rest)[j].button == x;
      }
    }
  }

  lemma LastAtMore(history: seq<Observed>, o: Observed, b: Button)
    ensures LastAt(history + [o], b) == if b == o.button then |history| else LastAt(history, b)
  {
    assert (history + [o])[..|history|] == history;
  }

  /** The list is what it is meant to be: each button once, as it was last seen, the newest first, none left out. */
  lemma {:induction false} LatestIsNewestFirst(history: seq<Observed>)
    ensures AsLastSeen(history, Latest(history)) && NewestFirst(history, Latest(history))
    ensures Covers(history, Latest(history))
    decreases |history|
  {
    if history != [] {
      var before, o := history[..|history| - 1], history[|history| - 1];
      assert history == before + [o];
      LatestIsNewestFirst(before);
      hide AsLastSeen, NewestFirst, Covers, LastAt;
      SeenMore(before, o, Latest(before));
      CoversMore(before, o, Latest(before));
    }
  }

  lemma SeenMore(before: seq<Observed>, o: Observed, os: seq<Observed>)
    requires AsLastSeen(before, os) && NewestFirst(before, os)
    ensures AsLastSeen(before + [o], [o] + WithoutSeen(os, o.button))
    ensures NewestFirst(before + [o], [o] + WithoutSeen(os, o.button))
  {
    hide LastAt, WithoutSeen;
    WithoutKeepsOrder(before, os, o.button);
    var kept := WithoutSeen(os, o.button);
    var all := [o] + kept;
    forall i | 0 <= i < |all| ensures LastAt(before + [o], all[i].button)
      == if i == 0 then |before| else LastAt(before, kept[i - 1].button)
    {
      assert i > 0 ==> all[i] == kept[i - 1] && kept[i - 1] in kept;
      LastAtMore(before, o, all[i].button);
    }
    forall i | 0 < i < |all|
      ensures LastAt(before, kept[i - 1].button) >= 0 && all[i] == before[LastAt(before, kept[i - 1].button)]
    {
      assert kept[i - 1] in os;
    }
  }

  lemma CoversMore(before: seq<Observed>, o: Observed, os: seq<Observed>)
    requires Covers(before, os)
    ensures Covers(before + [o], [o] + WithoutSeen(os, o.button))
  {
    hide WithoutSeen, Contains;
    var kept := WithoutSeen(os, o.button);
    forall k | 0 <= k < |before + [o]| ensures Contains([o] + kept, (before + [o])[k].button) {
      var x := (before + [o])[k].button;
      if x != o.button {
        WithoutKeepsOthers(os, o.button, x);
      }
      ContainsMore(o, kept, x);
    }
  }

  lemma ContainsMore(o: Observed, os: seq<Observed>, x: Button)
    ensures Contains([o] + os, x) <==> o.button == x || Contains(os, x)
  {
    var all := [o] + os;
    assert all[0] == o && forall i | 0 <= i < |os| :: all[i + 1] == os[i];
  }

  /** What the table keeps of it. */
  lemma KeptAreNewest(history: seq<Observed>, max: nat)
    ensures var os := Take(Latest(history), max);
      SeenOnce(os) && |os| <= max && AsLastSeen(history, os) && NewestFirst(history, os)
      && (|os| < max ==> Covers(history, os))
  {
    hide LastAt, Latest, Covers;
    LatestOnce(history);
    LatestIsNewestFirst(history);
    assert |Latest(history)| <= max ==> Take(Latest(history), max) == Latest(history);
  }

  lemma TakeCons(o: Observed, os: seq<Observed>, n: nat)
    requires n > 0
    ensures Take([o] + os, n) == [o] + Take(os, n - 1)
  {
  }

  lemma TakeTwice(os: seq<Observed>, n: nat)
    ensures Take(Take(os, n), n) == Take(os, n) && Take(os, 0) == []
  {
  }

  /** Dropping a button from the first n, or from all and then taking n - 1, begins alike. */
  predicate BeginsAlike(os: seq<Observed>, b: Button, n: nat)
    requires n > 0
  {
    Take(WithoutSeen(Take(os, n), b), n - 1) == Take(WithoutSeen(os, b), n - 1)
  }

  lemma {:induction false} WithoutOfTake(os: seq<Observed>, b: Button, n: nat)
    requires SeenOnce(os) && n > 0
    ensures BeginsAlike(os, b, n)
    decreases |os|
  {
    if os == [] {
      assert Take(os, n) == [];
    } else {
      var o, rest := os[0], os[1..];
      assert os == [o] + rest && SeenOnce(rest) && forall i | 0 <= i < |rest| :: rest[i].button != o.button;
      hide BeginsAlike, SeenOnce;
      if o.button == b {
        DroppedFirst(o, rest, n);
      } else if n == 1 {
        NoneTaken(os, b);
      } else {
        WithoutOfTake(rest, b, n - 1);
        KeptFirst(o, rest, b, n);
      }
    }
  }

  lemma NoneTaken(os: seq<Observed>, b: Button)
    ensures BeginsAlike(os, b, 1)
  {
    hide WithoutSeen;
  }

  lemma DroppedFirst(o: Observed, rest: seq<Observed>, n: nat)
    requires n > 0 && forall i | 0 <= i < |rest| :: rest[i].button != o.button
    ensures BeginsAlike([o] + rest, o.button, n)
  {
    TakeCons(o, rest, n);
    NotThere(rest, o.button);
    NotThere(Take(rest, n - 1), o.button);
    hide Take, WithoutSeen;
    TakeTwice(rest, n - 1);
    KeepNone(o, rest, o.button);
    KeepNone(o, Take(rest, n - 1), o.button);
  }

  lemma KeptFirst(o: Observed, rest: seq<Observed>, b: Button, n: nat)
    requires n > 1 && o.button != b && BeginsAlike(rest, b, n - 1)
    ensures BeginsAlike([o] + rest, b, n)
  {
    hide Take, WithoutSeen;
    TakeCons(o, rest, n);
    KeepOne(o, rest, b);
    KeepOne(o, Take(rest, n - 1), b);
    TakeCons(o, WithoutSeen(rest, b), n - 1);
    TakeCons(o, WithoutSeen(Take(rest, n - 1), b), n - 1);
  }

  lemma KeepOne(o: Observed, os: seq<Observed>, b: Button)
    requires o.button != b
    ensures WithoutSeen([o] + os, b) == [o] + WithoutSeen(os, b)
  {
    assert ([o] + os)[1..] == os;
  }

  lemma KeepNone(o: Observed, os: seq<Observed>, b: Button)
    requires o.button == b
    ensures WithoutSeen([o] + os, b) == WithoutSeen(os, b)
  {
    assert ([o] + os)[1..] == os && [] + WithoutSeen(os, b) == WithoutSeen(os, b);
  }

  lemma {:induction false} NotThere(os: seq<Observed>, b: Button)
    requires forall i | 0 <= i < |os| :: os[i].button != b
    ensures WithoutSeen(os, b) == os
  {
    if os != [] {
      NotThere(os[1..], b);
    }
  }

  /** One more observation: what the table keeps is still the newest of all that was seen. */
  lemma ObservationKeeps(history: seq<Observed>, o: Observed, max: nat)
    ensures Latest(history + [o]) == [o] + WithoutSeen(Latest(history), o.button)
    ensures Take([o] + WithoutSeen(Take(Latest(history), max), o.button), max) == Take(Latest(history + [o]), max)
    ensures |WithoutSeen(Take(Latest(history), max), o.button)| <= max
  {
    assert (history + [o])[..|history + [o]| - 1] == history;
    LatestOnce(history);
    var all := Latest(history);
    if max > 0 {
      WithoutOfTake(all, o.button, max);
      TakeCons(o, WithoutSeen(Take(all, max), o.button), max);
      TakeCons(o, WithoutSeen(all, o.button), max);
    }
  }

  // ---------------------------------------------------------------- the documents

  /** The table's lasting part: commands, names, and the number the next unnamed button gets. */
  datatype Registry = Registry(commands: seq<Pair>, names: map<Button, string>, nextId: nat)

  const DEFAULT_NAME := "\U{30DC}\U{30BF}\U{30F3}"

  /** `String(int)`. */
  function Decimal(n: nat): string {
    if n < 10 then [Digit(n)] else Decimal(n / 10) + [Digit(n % 10)]
  }

  lemma {:induction false} DecimalDiffers(m: nat, n: nat)
    ensures Decimal(m) == Decimal(n) ==> m == n
  {
    DigitValue(m % 10);
    DigitValue(n % 10);
    hide Digit, IsHex, HexValue;
    DecimalParts(m);
    DecimalParts(n);
    if m >= 10 && n >= 10 {
      DecimalDiffers(m / 10, n / 10);
    }
  }

  lemma DecimalParts(n: nat)
    ensures |Decimal(n)| >= 1 && (|Decimal(n)| == 1 <==> n < 10)
    ensures var last := |Decimal(n)| - 1;
      Decimal(n)[last] == Digit(n % 10) && (n >= 10 ==> Decimal(n)[..last] == Decimal(n / 10))
  {
    if n >= 10 {
      assert |Decimal(n / 10)| >= 1;
    }
  }

  /** The name given to a button that has none. */
  function NewName(id: nat): string {
    DEFAULT_NAME + Decimal(id)
  }

  lemma NewNamesDiffer(m: nat, n: nat)
    ensures NewName(m) == NewName(n) ==> m == n
  {
    hide Decimal;
    DecimalDiffers(m, n);
    assert NewName(m)[|DEFAULT_NAME|..] == Decimal(m) && NewName(n)[|DEFAULT_NAME|..] == Decimal(n);
  }

  /** A button without a name is given the next one. */
  function Named(r: Registry, b: Button): Registry {
    if b in r.names then r else r.(names := r.names[b := NewName(r.nextId)], nextId := r.nextId + 1)
  }

  /** `SetCommandLocked`. */
  function SetCommandIn(r: Registry, b: Button, c: Command): Registry {
    Named(r, b).(commands := SetIn(r.commands, b, c))
  }

  /** An element of the commands document. */
  function CommandItem(p: Pair): Json
    requires ValidButton(p.button)
  {
    Obj(map["button" := Obj(FillButton(p.button, map[])), "command" := Obj(CommandFields(p.command))])
  }

  /** `ConvertCommandJson`. */
  function ParseItem(item: Fields): Option<Pair> {
    if "button" !in item || "command" !in item then None
    else
      match ParseButton(AsObject(item["button"]))
      case None => None
      case Some(b) =>
        match ParseCommand(AsObject(item["command"]))
        case None => None
        case Some(c) => Some(Pair(b, c))
  }

  /** The loop of `LoadCommandArrayLocked`: elements that do not parse are left out. */
  function LoadItems(r: Registry, items: seq<Json>): (Registry, bool)
    decreases |items|
  {
    if items == [] then (r, true)
    else match ParseItem(AsObject(items[0]))
      case None => (LoadItems(r, items[1..]).0, false)
      case Some(p) => LoadItems(SetCommandIn(r, p.button, p.command), items[1..])
  }

  /** The loop of `LoadButtonNameArrayLocked`. */
  function LoadNames(names: map<Button, string>, items: seq<Json>): map<Button, string>
    decreases |items|
  {
    if items == [] then names
    else
      var item := AsObject(items[0]);
      if "name" !in item || ParseButton(item).None? then LoadNames(names, items[1..])
      else LoadNames(names[ParseButton(item).value := AsString(item["name"])], items[1..])
  }

  predicate AllValid(cs: seq<Pair>) {
    forall i | 0 <= i < |cs| :: ValidButton(cs[i].button)
  }

  function CommandItems(cs: seq<Pair>): (r: seq<Json>)
    requires AllValid(cs)
    ensures |r| == |cs| && forall i | 0 <= i < |r| :: r[i] == CommandItem(cs[i])
  {
    seq(|cs|, i requires 0 <= i < |cs| => CommandItem(cs[i]))
  }

  function NormalPairs(cs: seq<Pair>): (r: seq<Pair>)
    ensures |r| == |cs| && forall i | 0 <= i < |r| :: r[i] == Pair(cs[i].button, Normal(cs[i].command))
  {
    seq(|cs|, i requires 0 <= i < |cs| => Pair(cs[i].button, Normal(cs[i].command)))
  }

  lemma ItemRoundTrip(p: Pair)
    requires ValidButton(p.button)
    ensures ParseItem(AsObject(CommandItem(p))) == Some(Pair(p.button, Normal(p.command)))
  {
    hide ParseButton, ParseCommand, CommandFields, FillButton;
    ButtonRoundTrip(p.button, map[]);
    CommandRoundTrip(p.command);
  }

  lemma {:induction false} SetNew(cs: seq<Pair>, b: Button, c: Command)
    requires !Registered(cs, b)
    ensures SetIn(cs, b, c) == cs + [Pair(b, c)]
  {
    if cs != [] {
      assert !Registered(cs[1..], b) by { assert forall i | 0 <= i < |cs[1..]| :: cs[1..][i] == cs[i + 1]; }
      SetNew(cs[1..], b, c);
      assert Without(cs[1..], b) == cs[1..] by { NothingWithout(cs[1..], b); }
      NothingWithout(cs, b);
    }
  }

  lemma {:induction false} NothingWithout(cs: seq<Pair>, b: Button)
    requires forall i | 0 <= i < |cs| :: cs[i].button != b
    ensures Without(cs, b) == cs
  {
    if cs != [] {
      NothingWithout(cs[1..], b);
    }
  }

  /** The buttons of the commands that have no name yet, in order. */
  function Nameless(names: map<Button, string>, cs: seq<Pair>): seq<Button> {
    if cs == [] then []
    else (if cs[0].button in names then [] else [cs[0].button]) + Nameless(names, cs[1..])
  }

  predicate NoRepeats(bs: seq<Button>) {
    forall i, j | 0 <= i < j < |bs| :: bs[i] != bs[j]
  }

  lemma {:induction false} NamelessAre(names: map<Button, string>, cs: seq<Pair>)
    requires NoButtonTwice(cs)
    ensures NoRepeats(Nameless(names, cs))
    ensures forall b :: b in Nameless(names, cs) <==> b !in names && Registered(cs, b)
  {
    if cs != [] {
      var rest := Nameless(names, cs[1..]);
      NamelessAre(names, cs[1..]);
      forall b ensures Registered(cs, b) <==> cs[0].button == b || Registered(cs[1..], b) {
        RegisteredCons(cs, b);
      }
      assert !Registered(cs[1..], cs[0].button);
      forall i | 0 <= i < |rest| ensures rest[i] != cs[0].button {
        assert rest[i] in rest;
      }
    }
  }

  lemma RegisteredCons(cs: seq<Pair>, b: Button)
    requires cs != []
    ensures Registered(cs, b) <==> cs[0].button == b || Registered(cs[1..], b)
  {
    assert forall i | 0 < i < |cs| :: cs[i] == cs[1..][i - 1];
  }

  /** A name given to a button registered no more matters to no other. */
  lemma {:induction false} NamelessOthers(names: map<Button, string>, cs: seq<Pair>, b: Button, name: string)
    requires !Registered(cs, b)
    ensures Nameless(names[b := name], cs) == Nameless(names, cs)
  {
    if cs != [] {
      RegisteredCons(cs, b);
      NamelessOthers(names, cs[1..], b, name);
    }
  }

  /** All names given before stay, and the buttons listed get the next new names, one after the other. */
  ghost predicate NamesAfter(before: map<Button, string>, id: nat, bs: seq<Button>, after: map<Button, string>,
                             id': nat) {
    && id' == id + |bs|
    && (forall b :: b in after <==> b in before || b in bs)
    && (forall b | b in before :: after[b] == before[b])
    && (forall i | 0 <= i < |bs| :: after[bs[i]] == NewName(id + i))
  }

  lemma NamesAfterOne(r: Registry, cs: seq<Pair>, c: Command, after: map<Button, string>, id': nat)
    requires cs != [] && NoButtonTwice(cs)
    requires var next := SetCommandIn(r, cs[0].button, c);
      NamesAfter(next.names, next.nextId, Nameless(next.names, cs[1..]), after, id')
    ensures NamesAfter(r.names, r.nextId, Nameless(r.names, cs), after, id')
  {
    hide NewName, NamesAfter, SetIn;
    var b := cs[0].button;
    var rest := Nameless(r.names, cs[1..]);
    if b in r.names {
      assert Nameless(r.names, cs) == [] + rest == rest;
    } else {
      assert !Registered(cs[1..], b) by { assert forall i | 0 <= i < |cs[1..]| :: cs[1..][i] == cs[i + 1]; }
      NamelessOthers(r.names, cs[1..], b, NewName(r.nextId));
      OneMoreName(r.names, r.nextId, b, rest, after, id');
    }
  }

  lemma OneMoreName(before: map<Button, string>, id: nat, b: Button, rest: seq<Button>, after: map<Button, string>,
                    id': nat)
    requires b !in before && NamesAfter(before[b := NewName(id)], id + 1, rest, after, id')
    ensures NamesAfter(before, id, [b] + rest, after, id')
  {
    hide NewName;
    var bs := [b] + rest;
    forall i | 0 <= i < |bs| ensures bs[i] in after && after[bs[i]] == NewName(id + i) {
      assert i > 0 ==> bs[i] == rest[i - 1] && bs[i] in rest;
    }
  }

  lemma {:induction false} AllNamed(names: map<Button, string>, cs: seq<Pair>)
    requires forall i | 0 <= i < |cs| :: cs[i].button in names
    ensures Nameless(names, cs) == []
  {
    if cs != [] {
      AllNamed(names, cs[1..]);
    }
  }

  /** Names given in this way are all different. */
  lemma NewNamesAreDistinct(before: map<Button, string>, id: nat, bs: seq<Button>, after: map<Button, string>, id': nat)
    requires NamesAfter(before, id, bs, after, id')
    ensures forall i, j | 0 <= i < j < |bs| :: bs[i] in after && bs[j] in after && after[bs[i]] != after[bs[j]]
  {
    hide NewName;
    forall i, j | 0 <= i < j < |bs| ensures after[bs[i]] != after[bs[j]] {
      NewNamesDiffer(id + i, id + j);
    }
  }

  /** Loading the commands that were saved restores them in order and in normal form, after those loaded before. */
  lemma {:induction false} LoadsBack(r: Registry, cs: seq<Pair>) returns (after: Registry)
    requires NoButtonTwice(r.commands + cs) && AllValid(cs)
    ensures LoadItems(r, CommandItems(cs)) == (after, true)
    ensures after.commands == r.commands + NormalPairs(cs)
    ensures NamesAfter(r.names, r.nextId, Nameless(r.names, cs), after.names, after.nextId)
    decreases |cs|
  {
    if cs == [] {
      after := r;
      assert r.commands + NormalPairs(cs) == r.commands;
    } else {
      var p := Pair(cs[0].button, Normal(cs[0].command));
      LoadOne(r, cs);
      NormalCons(cs);
      SetSaved(r, cs);
      OnceEach(r.commands, cs);
      hide *;
      after := LoadsBack(SetCommandIn(r, p.button, p.command), cs[1..]);
      Associative(r.commands, [p], NormalPairs(cs[1..]));
      NamesAfterOne(r, cs, p.command, after.names, after.nextId);
    }
  }

  lemma NormalCons(cs: seq<Pair>)
    requires cs != []
    ensures NormalPairs(cs) == [Pair(cs[0].button, Normal(cs[0].command))] + NormalPairs(cs[1..])
  {
    hide Normal;
  }

  /** A saved command is not yet there when its turn comes, so it is put last. */
  lemma SetSaved(r: Registry, cs: seq<Pair>)
    requires NoButtonTwice(r.commands + cs) && AllValid(cs) && cs != []
    ensures var next := SetCommandIn(r, cs[0].button, Normal(cs[0].command));
      next.commands == r.commands + [Pair(cs[0].button, Normal(cs[0].command))]
      && NoButtonTwice(next.commands + cs[1..]) && AllValid(cs[1..])
  {
    hide NoButtonTwice, SetIn, Normal;
    var p := Pair(cs[0].button, Normal(cs[0].command));
    NotRegistered(r.commands, cs);
    SetNew(r.commands, p.button, p.command);
    StillOnce(r.commands, cs, p);
  }

  lemma LoadOne(r: Registry, cs: seq<Pair>)
    requires AllValid(cs) && cs != []
    ensures LoadItems(r, CommandItems(cs))
         == LoadItems(SetCommandIn(r, cs[0].button, Normal(cs[0].command)), CommandItems(cs[1..]))
  {
    hide ParseItem, CommandItem, Normal, SetCommandIn;
    ItemRoundTrip(cs[0]);
    assert CommandItems(cs)[1..] == CommandItems(cs[1..]);
  }

  lemma OnceEach(a: seq<Pair>, cs: seq<Pair>)
    requires NoButtonTwice(a + cs)
    ensures NoButtonTwice(cs)
  {
    assert forall i | 0 <= i < |cs| :: cs[i] == (a + cs)[|a| + i];
  }

  lemma NotRegistered(a: seq<Pair>, cs: seq<Pair>)
    requires NoButtonTwice(a + cs) && cs != []
    ensures !Registered(a, cs[0].button)
  {
    forall i | 0 <= i < |a| ensures a[i].button != cs[0].button {
      assert (a + cs)[i] == a[i] && (a + cs)[|a|] == cs[0];
    }
  }

  lemma StillOnce(a: seq<Pair>, cs: seq<Pair>, p: Pair)
    requires NoButtonTwice(a + cs) && cs != [] && p.button == cs[0].button
    ensures NoButtonTwice((a + [p]) + cs[1..])
  {
    var x, y := a + cs, (a + [p]) + cs[1..];
    assert |x| == |y| && forall i | 0 <= i < |x| :: x[i].button == y[i].button;
  }

  // ---------------------------------------------------------------- names

  function NamedFields(name: Option<string>, o: Fields): Fields {
    match name case None => o case Some(n) => o["name" := Str(n)]
  }

  /** An observed button in the document, with its name if it has one. */
  function SeenItem(o: Observed, name: Option<string>): Json
    requires ValidButton(o.button)
  {
    var time: Fields := map["timestamp" := Int(o.timestamp)];
    var placed := if o.distance >= 0.0 then time["estimated_distance" := Real(o.distance)] else time;
    Obj(FillButton(o.button, NamedFields(name, placed)))
  }

  function NameItem(b: Button, name: string): Json
    requires ValidButton(b)
  {
    Obj(FillButton(b, map["name" := Str(name)]))
  }

  function NameOf(names: map<Button, string>, b: Button): Option<string> {
    if b in names then Some(names[b]) else None
  }

  predicate AllSeenValid(os: seq<Observed>) {
    forall i | 0 <= i < |os| :: ValidButton(os[i].button)
  }

  /** The observed buttons, each name used once. */
  function SeenItems(os: seq<Observed>, names: map<Button, string>): (r: seq<Json>)
    requires AllSeenValid(os)
    ensures |r| == |os|
  {
    if os == [] then []
    else [SeenItem(os[0], NameOf(names, os[0].button))] + SeenItems(os[1..], names - {os[0].button})
  }

  /** The names of buttons not observed. */
  function Unseen(os: seq<Observed>, names: map<Button, string>): (r: map<Button, string>)
    ensures forall b | b in r :: b in names
  {
    if os == [] then names else Unseen(os[1..], names - {os[0].button})
  }

  /** The remaining names in some order. */
  function NameItems(order: seq<Button>, names: map<Button, string>): (r: seq<Json>)
    requires forall b | b in order :: b in names && ValidButton(b)
    ensures |r| == |order|
  {
    if order == [] then [] else [NameItem(order[0], names[order[0]])] + NameItems(order[1..], names)
  }

  lemma NameItemLoads(names: map<Button, string>, b: Button, name: string, rest: seq<Json>)
    requires ValidButton(b)
    ensures LoadNames(names, [NameItem(b, name)] + rest) == LoadNames(names[b := name], rest)
  {
    hide ParseButton, FillButton;
    ButtonRoundTrip(b, map["name" := Str(name)]);
    assert ([NameItem(b, name)] + rest)[1..] == rest;
    FillKeepsName(b, map["name" := Str(name)]);
  }

  lemma FillKeepsName(b: Button, o: Fields)
    requires ValidButton(b)
    ensures "name" in FillButton(b, o) <==> "name" in o
    ensures "name" in o ==> FillButton(b, o)["name"] == o["name"]
  {
  }

  lemma SeenItemLoads(names: map<Button, string>, o: Observed, name: Option<string>, rest: seq<Json>)
    requires ValidButton(o.button)
    ensures LoadNames(names, [SeenItem(o, name)] + rest)
         == LoadNames(match name case None => names case Some(n) => names[o.button := n], rest)
  {
    hide ParseButton, FillButton;
    var time: Fields := map["timestamp" := Int(o.timestamp)];
    var placed := if o.distance >= 0.0 then time["estimated_distance" := Real(o.distance)] else time;
    var fields := NamedFields(name, placed);
    assert NoButtonKeys(fields);
    ButtonRoundTrip(o.button, fields);
    FillKeepsName(o.button, fields);
    assert ([SeenItem(o, name)] + rest)[1..] == rest;
  }

  /** The remaining names are read back whatever their order. */
  lemma {:induction false} NameItemsLoad(before: map<Button, string>, order: seq<Button>, names: map<Button, string>)
    requires forall b | b in order :: b in names && ValidButton(b)
    ensures forall b | b in LoadNames(before, NameItems(order, names)) :: b in before || b in order
    ensures forall b | b in before || b in order :: b in LoadNames(before, NameItems(order, names))
    ensures forall b | b in before || b in order ::
      LoadNames(before, NameItems(order, names))[b] == if b in order then names[b] else before[b]
    decreases |order|
  {
    if order != [] {
      var b0 := order[0];
      NameItemLoads(before, b0, names[b0], NameItems(order[1..], names));
      NameItemsLoad(before[b0 := names[b0]], order[1..], names);
    }
  }

  lemma SeenCons(os: seq<Observed>, names: map<Button, string>, tail: seq<Json>)
    requires AllSeenValid(os) && os != []
    ensures SeenItems(os, names) + tail
         == [SeenItem(os[0], NameOf(names, os[0].button))] + (SeenItems(os[1..], names - {os[0].button}) + tail)
  {
    hide SeenItem;
  }

  lemma OneNameLess(before: map<Button, string>, names: map<Button, string>, b: Button)
    requires before.Keys !! names.Keys
    ensures var next := if b in names then before[b := names[b]] else before;
      next.Keys !! (names - {b}).Keys && next + (names - {b}) == before + names
  {
  }

  lemma AllNames(before: map<Button, string>, order: seq<Button>, names: map<Button, string>)
    requires (forall b | b in order :: b in names && ValidButton(b)) && (forall b | b in names :: b in order)
    requires before.Keys !! names.Keys
    ensures LoadNames(before, NameItems(order, names)) == before + names
  {
    NameItemsLoad(before, order, names);
  }

  /** The names of a saved table are read back as they were. */
  lemma {:induction false} NamesLoadBack(before: map<Button, string>, os: seq<Observed>, names: map<Button, string>,
                                         order: seq<Button>)
    requires AllSeenValid(os) && (forall b | b in order :: b in Unseen(os, names) && ValidButton(b))
    requires (forall b | b in Unseen(os, names) :: b in order) && before.Keys !! names.Keys
    ensures LoadNames(before, SeenItems(os, names) + NameItems(order, Unseen(os, names))) == before + names
    decreases |os|
  {
    var tail := NameItems(order, Unseen(os, names));
    if os == [] {
      assert SeenItems(os, names) + tail == tail;
      AllNames(before, order, names);
    } else {
      var b := os[0].button;
      var rest := SeenItems(os[1..], names - {b}) + tail;
      hide SeenItem, SeenItems, LoadNames, NameItems;
      SeenCons(os, names, tail);
      SeenItemLoads(before, os[0], NameOf(names, b), rest);
      OneNameLess(before, names, b);
      NamesLoadBack(if b in names then before[b := names[b]] else before, os[1..], names - {b}, order);
    }
  }

  // ---------------------------------------------------------------- what the documents show

  /** What a reader finds of an observed button: when, how far away if that is known, which, and what it is called. */
  predicate Shows(item: Json, o: Observed, name: Option<string>)
    requires ValidButton(o.button)
  {
    && item.Obj? && Described(item.fields, o.button) && ParseButton(item.fields) == Some(o.button)
    && Get(item.fields, "timestamp") == Int(o.timestamp)
    && ("estimated_distance" in item.fields <==> o.distance >= 0.0)
    && (o.distance >= 0.0 ==> item.fields["estimated_distance"] == Real(o.distance))
    && ("name" in item.fields <==> name.Some?) && (name.Some? ==> item.fields["name"] == Str(name.value))
  }

  /** What a reader finds of a button that only has a name. */
  predicate ShowsName(item: Json, b: Button, name: string)
    requires ValidButton(b)
  {
    && item.Obj? && Described(item.fields, b) && ParseButton(item.fields) == Some(b)
    && "timestamp" !in item.fields && "estimated_distance" !in item.fields
    && Get(item.fields, "name") == Str(name)
  }

  lemma SeenIsShown(o: Observed, name: Option<string>)
    requires ValidButton(o.button)
    ensures Shows(SeenItem(o, name), o, name)
  {
    var time: Fields := map["timestamp" := Int(o.timestamp)];
    var placed := if o.distance >= 0.0 then time["estimated_distance" := Real(o.distance)] else time;
    var fields := NamedFields(name, placed);
    ButtonRoundTrip(o.button, fields);
    FillDescribes(o.button, fields);
    hide ParseButton, FillButton, Described;
  }

  lemma NameIsShown(b: Button, name: string)
    requires ValidButton(b)
    ensures ShowsName(NameItem(b, name), b, name)
  {
    var fields: Fields := map["name" := Str(name)];
    ButtonRoundTrip(b, fields);
    FillDescribes(b, fields);
    hide ParseButton, FillButton, Described;
  }

  lemma {:induction false} SeenAreShown(os: seq<Observed>, names: map<Button, string>, i: nat)
    requires AllSeenValid(os) && SeenOnce(os) && i < |os|
    ensures Shows(SeenItems(os, names)[i], os[i], NameOf(names, os[i].button))
    decreases |os|
  {
    hide SeenItem, Shows, ValidButton;
    var b := os[0].button;
    if |os| > 1 {
      SeenAreShown(os[1..], names - {b}, if i == 0 then 0 else i - 1);
    }
    if i == 0 {
      SeenIsShown(os[0], NameOf(names, b));
    } else {
      assert os[i].button != b && os[1..][i - 1] == os[i];
    }
  }

  lemma {:induction false} UnseenAre(os: seq<Observed>, names: map<Button, string>, b: Button)
    ensures b in Unseen(os, names) <==> b in names && !Contains(os, b)
    ensures b in Unseen(os, names) ==> Unseen(os, names)[b] == names[b]
  {
    if os != [] {
      UnseenAre(os[1..], names - {os[0].button}, b);
      ContainsMore(os[0], os[1..], b);
      assert os == [os[0]] + os[1..];
    }
  }

  lemma {:induction false} NamesAreShown(order: seq<Button>, names: map<Button, string>, i: nat)
    requires (forall b | b in order :: b in names && ValidButton(b)) && i < |order|
    ensures order[i] in order
    ensures ShowsName(NameItems(order, names)[i], order[i], names[order[i]])
    decreases |order|
  {
    hide NameItem, ShowsName, ValidButton;
    if |order| > 1 {
      NamesAreShown(order[1..], names, if i == 0 then 0 else i - 1);
    }
    if i == 0 {
      NameIsShown(order[0], names[order[0]]);
    }
  }

  /**
   * The document the pages read: the observed buttons in order, each with what is known of it, then every other
   * name once, in some order.
   */
  ghost predicate ButtonsShown(doc: Json, now: int, os: seq<Observed>, names: map<Button, string>, order: seq<Button>)
    requires AllSeenValid(os) && AllNamesValid(names)
  {
    && doc.Obj? && Get(doc.fields, "type") == Str("observed_buttons") && Get(doc.fields, "timestamp_now") == Int(now)
    && NoRepeats(order) && (forall b :: b in order <==> b in names && !Contains(os, b))
    && Get(doc.fields, "buttons").Arr?
    && var items := Get(doc.fields, "buttons").items;
       && |items| == |os| + |order|
       && (forall i | 0 <= i < |os| :: Shows(items[i], os[i], NameOf(names, os[i].button)))
       && (forall i | 0 <= i < |order| :: order[i] in order && ShowsName(items[|os| + i], order[i], names[order[i]]))
  }

  lemma SeenThenNamed(now: int, os: seq<Observed>, names: map<Button, string>, order: seq<Button>)
    requires AllSeenValid(os) && AllNamesValid(names) && SeenOnce(os) && NoRepeats(order)
    requires forall b | b in order :: b in Unseen(os, names) && ValidButton(b)
    requires forall b | b in Unseen(os, names) :: b in order
    ensures forall i | 0 <= i < |os| :: Shows(SeenItems(os, names)[i], os[i], NameOf(names, os[i].button))
    ensures forall b :: b in order <==> b in names && !Contains(os, b)
    ensures forall i | 0 <= i < |order| ::
      order[i] in order && ShowsName(NameItems(order, Unseen(os, names))[i], order[i], names[order[i]])
  {
    hide SeenItems, NameItems, Shows, ShowsName, SeenOnce, NoRepeats, Contains, ValidButton, Unseen;
    forall b ensures b in Unseen(os, names) <==> b in names && !Contains(os, b)
      ensures b in Unseen(os, names) ==> Unseen(os, names)[b] == names[b]
    {
      UnseenAre(os, names, b);
    }
    forall i | 0 <= i < |os| ensures Shows(SeenItems(os, names)[i], os[i], NameOf(names, os[i].button)) {
      SeenAreShown(os, names, i);
    }
    forall i | 0 <= i < |order|
      ensures ShowsName(NameItems(order, Unseen(os, names))[i], order[i], names[order[i]])
    {
      NamesAreShown(order, Unseen(os, names), i);
    }
  }

  lemma NamesReadBack(os: seq<Observed>, names: map<Button, string>, order: seq<Button>)
    requires AllSeenValid(os) && (forall b | b in order :: b in Unseen(os, names) && ValidButton(b))
    requires forall b | b in Unseen(os, names) :: b in order
    ensures LoadNames(map[], SeenItems(os, names) + NameItems(order, Unseen(os, names))) == names
  {
    hide *;
    NamesLoadBack(map[], os, names, order);
    assert map[] + names == names;
  }

  lemma ItemsAreShown(doc: Json, now: int, os: seq<Observed>, names: map<Button, string>, order: seq<Button>,
                      seen: seq<Json>, named: seq<Json>)
    requires AllSeenValid(os) && AllNamesValid(names) && NoRepeats(order) && |seen| == |os| && |named| == |order|
    requires doc.Obj? && Get(doc.fields, "type") == Str("observed_buttons")
    requires Get(doc.fields, "timestamp_now") == Int(now) && Get(doc.fields, "buttons") == Arr(seen + named)
    requires forall i | 0 <= i < |os| :: Shows(seen[i], os[i], NameOf(names, os[i].button))
    requires forall b :: b in order <==> b in names && !Contains(os, b)
    requires forall i | 0 <= i < |order| :: order[i] in order && ShowsName(named[i], order[i], names[order[i]])
    ensures ButtonsShown(doc, now, os, names, order)
  {
    hide Shows, ShowsName, Contains, NoRepeats, Get, ValidButton;
  }

  function ButtonsDocument(now: int, items: seq<Json>): Json {
    Obj(map["type" := Str("observed_buttons"), "buttons" := Arr(items), "timestamp_now" := Int(now)])
  }

  lemma ButtonsDocumentIs(now: int, items: seq<Json>)
    ensures var doc := ButtonsDocument(now, items);
      && doc.Obj? && Get(doc.fields, "type") == Str("observed_buttons") && Get(doc.fields, "timestamp_now") == Int(now)
      && Get(doc.fields, "buttons") == Arr(items)
  {
  }

  lemma DocumentShows(doc: Json, now: int, os: seq<Observed>, names: map<Button, string>, order: seq<Button>)
    requires AllSeenValid(os) && AllNamesValid(names) && SeenOnce(os) && NoRepeats(order)
    requires forall b | b in order :: b in Unseen(os, names) && ValidButton(b)
    requires forall b | b in Unseen(os, names) :: b in order
    requires doc == ButtonsDocument(now, SeenItems(os, names) + NameItems(order, Unseen(os, names)))
    ensures ButtonsShown(doc, now, os, names, order)
    ensures doc.Obj? && Get(doc.fields, "buttons").Arr?
    ensures LoadNames(map[], Get(doc.fields, "buttons").items) == names
  {
    var seen, named := SeenItems(os, names), NameItems(order, Unseen(os, names));
    hide *;
    NamesReadBack(os, names, order);
    SeenThenNamed(now, os, names, order);
    ButtonsDocumentIs(now, seen + named);
    ItemsAreShown(doc, now, os, names, order, seen, named);
  }

  /** The commands in order, each beside its button. */
  ghost predicate CommandsShown(doc: Json, now: int, cs: seq<Pair>)
    requires AllValid(cs)
  {
    && doc.Obj? && Get(doc.fields, "type") == Str("commands") && Get(doc.fields, "timestamp") == Int(now)
    && Get(doc.fields, "commands").Arr?
    && var items := Get(doc.fields, "commands").items;
       |items| == |cs| && forall i | 0 <= i < |cs| :: ShowsCommand(items[i], cs[i])
  }

  predicate ShowsCommand(item: Json, p: Pair)
    requires ValidButton(p.button)
  {
    && item.Obj? && Get(item.fields, "button").Obj? && Get(item.fields, "command").Obj?
    && Described(Get(item.fields, "button").fields, p.button)
    && CommandDescribed(Get(item.fields, "command").fields, p.command)
  }

  lemma CommandIsShown(p: Pair)
    requires ValidButton(p.button)
    ensures ShowsCommand(CommandItem(p), p)
  {
    hide Described, CommandDescribed, FillButton, CommandFields;
    FillDescribes(p.button, map[]);
    CommandIsDescribed(p.command);
  }

  // ---------------------------------------------------------------- the table

  const FILE_VERSION := 7

  /** The file: its version and the two documents in it. */
  datatype File = File(version: int, buttons: Json, commands: Json)

  /** `CommandTable::Load`; the documents that are not there leave their part as it was. */
  function LoadFile(r: Registry, file: Option<File>): Registry {
    if file == None || file.value.version != FILE_VERSION then r
    else
      var buttons, commands := AsObject(file.value.buttons), AsObject(file.value.commands);
      var named := if "buttons" in buttons then r.(names := LoadNames(map[], AsItems(buttons["buttons"]))) else r;
      if "commands" in commands then LoadItems(named.(commands := []), AsItems(commands["commands"])).0 else named
  }

  function AsItems(j: Json): seq<Json> {
    if j.Arr? then j.items else []
  }

  /** A file that holds this registry. */
  ghost predicate Holds(file: File, r: Registry)
    requires AllValid(r.commands)
  {
    && file.version == FILE_VERSION && file.buttons.Obj? && file.commands.Obj?
    && Get(file.buttons.fields, "buttons").Arr? && Get(file.commands.fields, "commands").Arr?
    && LoadNames(map[], Get(file.buttons.fields, "buttons").items) == r.names
    && Get(file.commands.fields, "commands").items == CommandItems(r.commands)
  }

  /**
   * Saving and loading: into whatever table the file is loaded, every name comes back, every command comes
   * back in its place in its normal form, and exactly the buttons that had a command and no name get new ones.
   */
  lemma SaveLoadRoundTrip(file: File, r: Registry, into: Registry) returns (after: Registry)
    requires AllValid(r.commands) && NoButtonTwice(r.commands) && Holds(file, r)
    ensures after == LoadFile(into, Some(file))
    ensures after.commands == NormalPairs(r.commands)
    ensures NamesAfter(r.names, into.nextId, Nameless(r.names, r.commands), after.names, after.nextId)
  {
    hide LoadNames, LoadItems, CommandItems;
    assert [] + r.commands == r.commands;
    after := LoadsBack(into.(names := r.names, commands := []), r.commands);
    assert [] + NormalPairs(r.commands) == NormalPairs(r.commands);
  }

  /** The commands come back as they were exactly when every one of them is of the kind that survives storing. */
  lemma CommandsSurviveIff(file: File, r: Registry, into: Registry)
    requires AllValid(r.commands) && NoButtonTwice(r.commands) && Holds(file, r)
    ensures LoadFile(into, Some(file)).commands == r.commands
      <==> forall i | 0 <= i < |r.commands| :: Survives(r.commands[i].command)
  {
    hide ParseCommand, CommandFields, LoadFile, Holds, NoButtonTwice, NamesAfter, Survives, Normal;
    var after := SaveLoadRoundTrip(file, r, into);
    forall i | 0 <= i < |r.commands|
      ensures NormalPairs(r.commands)[i] == r.commands[i] <==> Survives(r.commands[i].command)
    {
      CommandSurvivesIff(r.commands[i].command);
      CommandRoundTrip(r.commands[i].command);
      assert r.commands[i] == Pair(r.commands[i].button, r.commands[i].command);
    }
  }

  /** A table in normal form whose registered buttons all have names comes back as it was. */
  lemma NormalTableComesBack(file: File, r: Registry, into: Registry)
    requires AllValid(r.commands) && NoButtonTwice(r.commands) && Holds(file, r)
    requires NormalPairs(r.commands) == r.commands && forall b | Registered(r.commands, b) :: b in r.names
    ensures var after := LoadFile(into, Some(file)); after.commands == r.commands && after.names == r.names
  {
    assert forall i | 0 <= i < |r.commands| :: Registered(r.commands, r.commands[i].button);
    hide *;
    var after := SaveLoadRoundTrip(file, r, into);
    AllNamed(r.names, r.commands);
    NoNewNames(r.names, into.nextId, after.names, after.nextId);
  }

  lemma NoNewNames(before: map<Button, string>, id: nat, after: map<Button, string>, id': nat)
    requires NamesAfter(before, id, [], after, id')
    ensures after == before
  {
  }

  lemma NormalPairsSettle(cs: seq<Pair>)
    requires NoButtonTwice(cs)
    ensures NoButtonTwice(NormalPairs(cs)) && NormalPairs(NormalPairs(cs)) == NormalPairs(cs)
    ensures forall b | Registered(NormalPairs(cs), b) :: Registered(cs, b)
  {
    forall i | 0 <= i < |cs| ensures Normal(Normal(cs[i].command)) == Normal(cs[i].command) {
      NormalIsIdempotent(cs[i].command);
    }
    hide Normal;
    forall b | Registered(NormalPairs(cs), b) ensures Registered(cs, b) {
      var i :| 0 <= i < |cs| && NormalPairs(cs)[i].button == b;
      assert cs[i].button == b;
    }
  }

  /** Whatever one save and load lost or added, a second save and load into any table changes nothing any more. */
  lemma SecondRoundIsIdentity(file: File, r: Registry, into: Registry, again: File, into': Registry)
    requires AllValid(r.commands) && NoButtonTwice(r.commands) && Holds(file, r)
    requires var first := LoadFile(into, Some(file)); AllValid(first.commands) && Holds(again, first)
    ensures var first := LoadFile(into, Some(file)); var second := LoadFile(into', Some(again));
      second.commands == first.commands && second.names == first.names
  {
    var first := SaveLoadRoundTrip(file, r, into);
    NormalPairsSettle(r.commands);
    NamelessAre(r.names, r.commands);
    hide LoadFile, Holds, NormalPairs, Registered, NoButtonTwice;
    NormalTableComesBack(again, first, into');
  }

  // ---------------------------------------------------------------- what loading anything keeps

  predicate ValidRegistry(r: Registry) {
    NoButtonTwice(r.commands) && AllValid(r.commands)
  }

  lemma {:induction false} WithoutValid(cs: seq<Pair>, b: Button)
    requires AllValid(cs)
    ensures AllValid(Without(cs, b))
  {
    var r := Without(cs, b);
    forall i | 0 <= i < |r| ensures ValidButton(r[i].button) {
      assert r[i] in cs;
    }
  }

  lemma SetKeeps(r: Registry, b: Button, c: Command)
    requires ValidRegistry(r) && ValidButton(b)
    ensures ValidRegistry(SetCommandIn(r, b, c)) && ValidRegistry(r.(commands := SetIn(r.commands, b, c)))
  {
    SetIsFound(r.commands, b, c, b);
    WithoutValid(r.commands, b);
  }

  /** Whatever the document says, no button ends up registered twice. */
  lemma {:induction false} LoadItemsKeeps(r: Registry, items: seq<Json>)
    requires ValidRegistry(r)
    ensures ValidRegistry(LoadItems(r, items).0)
    decreases |items|
  {
    if items != [] {
      hide ParseButton, ParseCommand, ValidRegistry, SetCommandIn;
      match ParseItem(AsObject(items[0]))
      case None => LoadItemsKeeps(r, items[1..]);
      case Some(p) =>
        SetKeeps(r, p.button, p.command);
        LoadItemsKeeps(SetCommandIn(r, p.button, p.command), items[1..]);
    }
  }

  /** The elements that are commands, in order. */
  function Parsed(items: seq<Json>): seq<Pair> {
    if items == [] then []
    else
      (match ParseItem(AsObject(items[0])) case None => [] case Some(p) => [p]) + Parsed(items[1..])
  }

  /** The last command set for the button among these. */
  function LastFor(ps: seq<Pair>, b: Button): Option<Command> {
    if ps == [] then None
    else if ps[|ps| - 1].button == b then Some(ps[|ps| - 1].command)
    else LastFor(ps[..|ps| - 1], b)
  }

  lemma {:induction false} LastForCons(p: Pair, ps: seq<Pair>, b: Button)
    ensures LastFor([p] + ps, b) == if LastFor(ps, b).Some? then LastFor(ps, b)
                                    else if p.button == b then Some(p.command) else None
  {
    if ps != [] {
      assert ([p] + ps)[..|ps|] == [p] + ps[..|ps| - 1];
      LastForCons(p, ps[..|ps| - 1], b);
    } else {
      assert ([p] + ps)[..0] == [];
    }
  }

  /**
   * Loading any list of elements: every one that is no command is left out and makes the result false; each button
   * ends up with the last command listed for it, or the one it had.
   */
  lemma {:induction false} LoadItemsIs(r: Registry, items: seq<Json>, b: Button)
    requires NoButtonTwice(r.commands)
    ensures var (after, ok) := LoadItems(r, items);
      && (ok <==> forall i | 0 <= i < |items| :: ParseItem(AsObject(items[i])).Some?)
      && Lookup(after.commands, b)
           == if LastFor(Parsed(items), b).Some? then LastFor(Parsed(items), b) else Lookup(r.commands, b)
    decreases |items|
  {
    hide ParseItem, NoButtonTwice, Lookup, SetIn;
    if items != [] {
      assert forall i | 0 < i < |items| :: items[i] == items[1..][i - 1];
      match ParseItem(AsObject(items[0]))
      case None =>
        assert [] + Parsed(items[1..]) == Parsed(items[1..]);
        LoadItemsIs(r, items[1..], b);
      case Some(p) =>
        SetIsFound(r.commands, p.button, p.command, b);
        LastForCons(p, Parsed(items[1..]), b);
        LoadItemsIs(SetCommandIn(r, p.button, p.command), items[1..], b);
    }
  }

  /** No file, or one of another version, changes nothing; a document without its list leaves its part as it was. */
  lemma OtherFilesAreIgnored(r: Registry, file: Option<File>)
    ensures file == None || file.value.version != 7 ==> LoadFile(r, file) == r
    ensures file.Some? && "commands" !in AsObject(file.value.commands) ==> LoadFile(r, file).commands == r.commands
    ensures file.Some? && "buttons" !in AsObject(file.value.buttons) && "commands" !in AsObject(file.value.commands)
      ==> LoadFile(r, file) == r
  {
    hide LoadItems, LoadNames;
  }

  lemma SetAllFound(cs: seq<Pair>, b: Button, c: Command)
    requires NoButtonTwice(cs)
    ensures Lookup(SetIn(cs, b, c), b) == Some(c)
    ensures forall other | other != b :: Lookup(SetIn(cs, b, c), other) == Lookup(cs, other)
  {
    forall other ensures Lookup(SetIn(cs, b, c), other) == if other == b then Some(c) else Lookup(cs, other) {
      SetIsFound(cs, b, c, other);
    }
  }

  predicate AllNamesValid(names: map<Button, string>) {
    forall b | b in names :: ValidButton(b)
  }

  lemma NamesKeep(names: map<Button, string>, b: Button, name: string)
    requires AllNamesValid(names) && ValidButton(b)
    ensures AllNamesValid(names[b := name])
  {
  }

  lemma {:induction false} LoadNamesKeeps(names: map<Button, string>, items: seq<Json>)
    requires AllNamesValid(names)
    ensures AllNamesValid(LoadNames(names, items))
    decreases |items|
  {
    if items != [] {
      hide ParseButton;
      var item := AsObject(items[0]);
      if "name" !in item || ParseButton(item).None? {
        LoadNamesKeeps(names, items[1..]);
      } else {
        LoadNamesKeeps(names[ParseButton(item).value := AsString(item["name"])], items[1..]);
      }
    }
  }

  lemma {:induction false} LoadItemsNames(r: Registry, items: seq<Json>)
    requires AllNamesValid(r.names)
    ensures AllNamesValid(LoadItems(r, items).0.names)
    decreases |items|
  {
    if items != [] {
      hide ParseButton, ParseCommand;
      match ParseItem(AsObject(items[0]))
      case None => LoadItemsNames(r, items[1..]);
      case Some(p) => LoadItemsNames(SetCommandIn(r, p.button, p.command), items[1..]);
    }
  }

  lemma LoadFileKeeps(r: Registry, file: Option<File>)
    requires ValidRegistry(r) && AllNamesValid(r.names)
    ensures ValidRegistry(LoadFile(r, file)) && AllNamesValid(LoadFile(r, file).names)
  {
    if file != None && file.value.version == FILE_VERSION {
      hide LoadItems, LoadNames, ParseButton;
      var buttons, commands := AsObject(file.value.buttons), AsObject(file.value.commands);
      LoadNamesKeeps(map[], AsItems(Get(buttons, "buttons")));
      var named := if "buttons" in buttons then r.(names := LoadNames(map[], AsItems(buttons["buttons"]))) else r;
      LoadItemsKeeps(named.(commands := []), AsItems(Get(commands, "commands")));
      LoadItemsNames(named.(commands := []), AsItems(Get(commands, "commands")));
    }
  }

  lemma {:induction false} SeenItemsSplit(os: seq<Observed>, names: map<Button, string>, i: nat)
    requires i < |os| && AllSeenValid(os)
    ensures SeenItems(os[..i + 1], names)
         == SeenItems(os[..i], names) + [SeenItem(os[i], NameOf(Unseen(os[..i], names), os[i].button))]
    ensures Unseen(os[..i + 1], names) == Unseen(os[..i], names) - {os[i].button}
    decreases i
  {
    hide SeenItem;
    var b := os[0].button;
    if i == 0 {
      assert os[..1] == [os[0]] && os[..0] == [] && [os[0]][1..] == [];
    } else {
      assert os[..i + 1][1..] == os[1..][..i] && os[..i][1..] == os[1..][..i - 1] && os[1..][i - 1] == os[i];
      SeenItemsSplit(os[1..], names - {b}, i - 1);
    }
  }

  /**
   * What `NotifyObservedButton` does to the list: out with the button, in at the front, off with the oldest if
   * too many.
   */
  function Noticed(os: seq<Observed>, o: Observed, max: nat): seq<Observed> {
    var all := [o] + WithoutSeen(os, o.button);
    if |all| > max then all[..|all| - 1] else all
  }

  lemma NoticedIsNewest(history: seq<Observed>, os: seq<Observed>, o: Observed, max: nat)
    requires os == Take(Latest(history), max) && AllSeenValid(os) && ValidButton(o.button)
    ensures Noticed(os, o, max) == Take(Latest(history + [o]), max) && AllSeenValid(Noticed(os, o, max))
  {
    ObservationKeeps(history, o, max);
    hide ValidButton, Latest;
    var kept := WithoutSeen(os, o.button);
    forall i | 0 <= i < |kept| ensures ValidButton(kept[i].button) {
      assert kept[i] in os;
    }
  }

  class CommandTable {
    const maxObserved: nat
    var observed: seq<Observed>
    var commands: seq<Pair>
    var names: map<Button, string>
    /** The number `Settings::GetNextButtonId` gives next. */
    var nextId: nat
    /** Every observation there ever was. */
    ghost var history: seq<Observed>

    ghost predicate Valid()
      reads this
    {
      && observed == Take(Latest(history), maxObserved) && AllSeenValid(observed)
      && ValidRegistry(State()) && AllNamesValid(names)
    }

    ghost function State(): Registry
      reads this
    {
      Registry(commands, names, nextId)
    }

    constructor (maxObserved: nat, nextId: nat)
      ensures Valid() && State() == Registry([], map[], nextId) && history == [] && this.maxObserved == maxObserved
    {
      this.maxObserved, this.nextId := maxObserved, nextId;
      observed, commands, names, history := [], [], map[], [];
    }

    /** `NotifyObservedButton`: the list stays the newest distinct buttons of all that were ever seen. */
    method NotifyObservedButton(button: Button, distance: real, now: int)
      requires Valid() && ValidButton(button)
      modifies this`observed, this`history
      ensures Valid() && history == old(history) + [Observed(now, distance, button)]
    {
      var o := Observed(now, distance, button);
      NoticedIsNewest(history, observed, o, maxObserved);
      hide Latest, Take, WithoutSeen, AllSeenValid, ValidRegistry, AllNamesValid, ValidButton;
      observed := WithoutSeen(observed, button);
      observed := [o] + observed;
      if |observed| > maxObserved {
        observed := observed[..|observed| - 1];
      }
      history := history + [o];
    }

    /** The first half of `SetCommandLocked`: a button without a name gets the next one. */
    method GiveName(button: Button)
      requires Valid() && ValidButton(button)
      modifies this`names, this`nextId
      ensures Valid() && State() == Named(old(State()), button)
    {
      NamesKeep(names, button, NewName(nextId));
      hide ValidRegistry, AllNamesValid, AllSeenValid, ValidButton, Latest, Take, NewName;
      ValidNames();
      if button !in names {
        names := names[button := NewName(nextId)];
        nextId := nextId + 1;
      }
    }

    lemma ValidNames()
      requires Valid()
      ensures forall names', id :: ValidRegistry(Registry(commands, names', id))
    {
    }

    /** The second half: the button's old command goes and the new one comes last. */
    method Register(button: Button, command: Command)
      requires Valid() && ValidButton(button)
      modifies this`commands
      ensures Valid() && State() == old(State()).(commands := SetIn(old(commands), button, command))
    {
      SetKeeps(State(), button, command);
      hide ValidRegistry, AllNamesValid, AllSeenValid, ValidButton, Latest, Take, NewName, Without;
      commands := Without(commands, button);
      commands := commands + [Pair(button, command)];
    }

    /** `SetCommand`. */
    method SetCommand(button: Button, command: Command)
      requires Valid() && ValidButton(button)
      modifies this`commands, this`names, this`nextId
      ensures Valid() && State() == SetCommandIn(old(State()), button, command)
      ensures Lookup(commands, button) == Some(command)
      ensures forall b | b != button :: Lookup(commands, b) == Lookup(old(commands), b)
    {
      SetAllFound(commands, button, command);
      hide CommandTable.Valid, SetIn, Lookup, NewName, ValidButton;
      GiveName(button);
      Register(button, command);
    }

    /** `DeleteCommand`: a beacon loses its name as well. */
    method DeleteCommand(button: Button)
      requires Valid()
      modifies this`commands, this`names
      ensures Valid() && Lookup(commands, button) == None
      ensures forall b | b != button :: Lookup(commands, b) == Lookup(old(commands), b)
      ensures names == if button.Beacon? then old(names) - {button} else old(names)
    {
      forall b ensures Lookup(Without(commands, button), b) == if b == button then None else Lookup(commands, b) {
        WithoutLookup(commands, button, b);
      }
      WithoutOnce(commands, button);
      commands := Without(commands, button);
      if button.Beacon? {
        names := names - {button};
      }
    }

    /** `GetCommandByButton`. */
    method GetCommandByButton(button: Button) returns (r: Option<Command>)
      ensures r == Lookup(commands, button)
    {
      assert commands[0..] == commands;
      for i := 0 to |commands|
        invariant Lookup(commands[i..], button) == Lookup(commands, button)
      {
        assert commands[i..][1..] == commands[i + 1..];
        if commands[i].button == button {
          return Some(commands[i].command);
        }
      }
      r := None;
    }

    /** `SetButtonName` and `DeleteButtonName`. */
    method SetButtonName(button: Button, name: string)
      requires Valid() && ValidButton(button)
      modifies this`names
      ensures Valid() && names == old(names)[button := name]
    {
      names := names[button := name];
    }

    method DeleteButtonName(button: Button)
      requires Valid()
      modifies this`names
      ensures Valid() && names == old(names) - {button}
    {
      names := names - {button};
    }

    /** The loop over the observed buttons in `ConvertObservedButtons`; `rest` is the copy names are erased from. */
    method ConvertSeen() returns (items: seq<Json>, rest: map<Button, string>)
      requires Valid()
      ensures items == SeenItems(observed, names) && rest == Unseen(observed, names)
    {
      hide SeenItem, SeenItems, Unseen;
      items, rest := [], names;
      NoneSeen(names);
      assert observed[..0] == [] && observed[..|observed|] == observed;
      for i := 0 to |observed|
        invariant items == SeenItems(observed[..i], names) && rest == Unseen(observed[..i], names)
      {
        SeenItemsSplit(observed, names, i);
        var b := observed[i].button;
        items := items + [SeenItem(observed[i], NameOf(rest, b))];
        rest := rest - {b};
      }
    }

    lemma NoneSeen(names: map<Button, string>)
      ensures SeenItems([], names) == [] && Unseen([], names) == names
    {
    }

    /** The loop over the names that are left. */
    method ConvertNames(rest: map<Button, string>) returns (items: seq<Json>, ghost order: seq<Button>)
      requires AllNamesValid(rest)
      ensures (forall b | b in order :: b in rest && ValidButton(b)) && (forall b | b in rest :: b in order)
      ensures items == NameItems(order, rest) && NoRepeats(order)
    {
      hide NameItem;
      var left := rest;
      items, order := [], [];
      while left != map[]
        invariant (forall b | b in order :: b in rest && ValidButton(b))
        invariant (forall b | b in left :: b in rest && left[b] == rest[b])
        invariant (forall b | b in rest :: b in order || b in left) && items == NameItems(order, rest)
        invariant NoRepeats(order) && forall b | b in order :: b !in left
        decreases |left|
      {
        var b: Button :| b in left;
        NameItemsMore(order, b, rest);
        items := items + [NameItem(b, left[b])];
        order := order + [b];
        left := left - {b};
      }
    }

    /** `ConvertObservedButtons`. */
    method ConvertObservedButtons(now: int) returns (doc: Json, ghost order: seq<Button>)
      requires Valid()
      ensures ButtonsShown(doc, now, observed, names, order)
      ensures doc.Obj? && Get(doc.fields, "buttons").Arr?
      ensures LoadNames(map[], Get(doc.fields, "buttons").items) == names
    {
      KeptOnce();
      hide *;
      var seen, rest := ConvertSeen();
      var named;
      named, order := ConvertNames(rest);
      doc := ButtonsDocument(now, seen + named);
      DocumentShows(doc, now, observed, names, order);
    }

    lemma KeptOnce()
      requires Valid()
      ensures SeenOnce(observed) && AllSeenValid(observed) && AllNamesValid(names)
      ensures AllNamesValid(Unseen(observed, names))
    {
      KeptAreNewest(history, maxObserved);
    }

    /** `ConvertCommands`. */
    method ConvertCommands(now: int) returns (doc: Json)
      requires Valid()
      ensures CommandsShown(doc, now, commands)
      ensures doc.Obj? && Get(doc.fields, "commands") == Arr(CommandItems(commands))
    {
      hide CommandItem, ShowsCommand, Latest, NoButtonTwice, ValidButton;
      forall i | 0 <= i < |commands| ensures ShowsCommand(CommandItem(commands[i]), commands[i]) {
        CommandIsShown(commands[i]);
      }
      doc := Obj(map["type" := Str("commands"), "commands" := Arr(CommandItems(commands)), "timestamp" := Int(now)]);
    }

    /** `Save`: the file written, at a time of the clock. */
    method Save(now: int) returns (file: File, ghost order: seq<Button>)
      requires Valid()
      ensures Holds(file, State())
      ensures ButtonsShown(file.buttons, now, observed, names, order) && CommandsShown(file.commands, now, commands)
    {
      hide CommandItems, LoadNames, ButtonsShown, CommandsShown;
      var buttons, docs;
      buttons, order := ConvertObservedButtons(now);
      docs := ConvertCommands(now);
      file := File(FILE_VERSION, buttons, docs);
    }

    /** The loop of `LoadCommandArrayLocked`, from an empty list on. */
    method LoadCommands(items: seq<Json>) returns (ok: bool)
      requires Valid()
      modifies this`commands, this`names, this`nextId
      ensures Valid() && (State(), ok) == LoadItems(old(State()).(commands := []), items)
    {
      commands := [];
      ok := true;
      ghost var whole := LoadItems(State(), items);
      assert items[0..] == items;
      hide ParseItem, SetCommandIn, Latest, Take, ValidButton;
      for i := 0 to |items|
        invariant Valid() && whole.0 == LoadItems(State(), items[i..]).0
        invariant whole.1 == (ok && LoadItems(State(), items[i..]).1)
      {
        assert items[i..][1..] == items[i + 1..];
        var item := ParseItem(AsObject(items[i]));
        match item {
          case None => ok := false;
          case Some(p) =>
            ItemIsValid(AsObject(items[i]));
            SetCommand(p.button, p.command);
        }
      }
    }

    lemma ItemIsValid(item: Fields)
      ensures ParseItem(item).Some? ==> ValidButton(ParseItem(item).value.button)
    {
    }

    /** The loop of `LoadButtonNameArrayLocked`. */
    method LoadButtonNames(items: seq<Json>)
      requires Valid()
      modifies this`names
      ensures Valid() && names == LoadNames(map[], items)
    {
      names := map[];
      assert items[0..] == items;
      hide ParseButton, Latest, Take, ValidButton, ValidRegistry;
      for i := 0 to |items|
        invariant Valid() && LoadNames(map[], items) == LoadNames(names, items[i..])
      {
        assert items[i..][1..] == items[i + 1..];
        var item := AsObject(items[i]);
        if "name" in item {
          var button := ParseButton(item);
          if button.Some? {
            SetButtonName(button.value, AsString(item["name"]));
          }
        }
      }
    }

    /** `Load`. */
    method Load(file: Option<File>)
      requires Valid()
      modifies this`commands, this`names, this`nextId
      ensures Valid() && State() == LoadFile(old(State()), file)
    {
      hide LoadItems, LoadNames, Latest, Take, ValidRegistry, AllNamesValid;
      if file == None || file.value.version != FILE_VERSION {
        return;
      }
      var buttons, docs := AsObject(file.value.buttons), AsObject(file.value.commands);
      if "buttons" in buttons {
        LoadButtonNames(AsItems(buttons["buttons"]));
      }
      if "commands" in docs {
        var ok := LoadCommands(AsItems(docs["commands"]));
      }
    }

    /** `LoadCommand`: one command from a document. */
    method LoadCommand(item: Fields) returns (ok: bool)
      requires Valid()
      modifies this`commands, this`names, this`nextId
      ensures Valid() && ok == ParseItem(item).Some?
      ensures State() == match ParseItem(item)
        case None => old(State())
        case Some(p) => SetCommandIn(old(State()), p.button, p.command)
    {
      hide ParseItem, SetCommandIn;
      match ParseItem(item) {
        case None => return false;
        case Some(p) =>
          ItemIsValid(item);
          SetCommand(p.button, p.command);
          return true;
      }
    }

    /** `Reset`. */
    method Reset()
      requires Valid()
      modifies this
      ensures Valid() && observed == [] && State() == Registry([], map[], old(nextId)) && history == []
    {
      observed, commands, names, history := [], [], map[], [];
    }
  }

  /** A table saved and loaded into another. */
  method Restart(from: CommandTable, into: CommandTable, now: int)
    requires from != into && from.Valid() && into.Valid()
    modifies into`commands, into`names, into`nextId
    ensures into.Valid() && from.Valid() && from.State() == old(from.State())
    ensures into.commands == NormalPairs(from.commands)
    ensures NamesAfter(from.names, old(into.nextId), Nameless(from.names, from.commands), into.names, into.nextId)
  {
    var file, _ := from.Save(now);
    ghost var after := SaveLoadRoundTrip(file, from.State(), into.State());
    into.Load(Some(file));
  }

  lemma {:induction false} NameItemsMore(order: seq<Button>, b: Button, names: map<Button, string>)
    requires (forall x | x in order :: x in names && ValidButton(x)) && b in names && ValidButton(b)
    ensures NameItems(order + [b], names) == NameItems(order, names) + [NameItem(b, names[b])]
  {
    hide NameItem;
    if order == [] {
      assert order + [b] == [b] && [b][1..] == [];
    } else {
      assert (order + [b])[1..] == order[1..] + [b];
      NameItemsMore(order[1..], b, names);
    }
  }
}
