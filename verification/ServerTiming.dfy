/** Stage timing: laps are measured, printed as a Server-Timing header value and parsed back. */
module ServerTiming {
  import opened Wrappers
  import opened Text
  import opened Decimals

  /** A dictionary in insertion order. */
  type Dict<V> = seq<(string, V)>

  predicate HasKey<V>(d: Dict<V>, key: string) {
    exists i :: 0 <= i < |d| && d[i].0 == key
  }

  predicate DistinctKeys<V>(d: Dict<V>) {
    forall i, j :: 0 <= i < j < |d| ==> d[i].0 != d[j].0
  }

  /** A known key keeps its place and gets the new value, a new key is added at the end. */
  function Upsert<V>(d: Dict<V>, key: string, value: V): Dict<V> {
    if d == [] then [(key, value)]
    else if d[0].0 == key then [(key, value)] + d[1..]
    else [d[0]] + Upsert(d[1..], key, value)
  }

  function Lookup<V>(d: Dict<V>, key: string): Option<V> {
    if d == [] then None else if d[0].0 == key then Some(d[0].1) else Lookup(d[1..], key)
  }

  /** As a dictionary does: the key gets the value, nothing else changes, and known keys stay where they are. */
  lemma {:induction false} UpsertIsUpdate<V>(d: Dict<V>, key: string, value: V, k: string)
    ensures var u := Upsert(d, key, value);
            && Lookup(u, k) == (if k == key then Some(value) else Lookup(d, k))
            && |u| == |d| + (if Lookup(d, key).None? then 1 else 0)
            && forall i :: 0 <= i < |d| ==> u[i].0 == d[i].0
  {
    if d == [] {
    } else {
      UpsertIsUpdate(d[1..], key, value, k);
    }
  }

  function Total(d: Dict<nat>): nat {
    if d == [] then 0 else d[0].1 + Total(d[1..])
  }

  // ---------------------------------------------------------------- printing

  const SEPARATOR := ";dur="
  const MS_PLACES := 3

  /** Nanoseconds rounded to microseconds, the third decimal of a millisecond, ties to even. */
  function Rounded(ns: nat): (us: nat)
    ensures -500 <= 1000 * us - ns <= 500
    ensures 1000 * us - ns == 500 || 1000 * us - ns == -500 ==> us % 2 == 0
  {
    var us, rest := ns / 1000, ns % 1000;
    if rest < 500 || (rest == 500 && us % 2 == 0) then us else us + 1
  }

  function Item(entry: (string, nat)): string {
    entry.0 + SEPARATOR + PrintFixed(Rounded(entry.1), MS_PLACES)
  }

  function Items(d: Dict<nat>): (items: seq<string>)
    ensures |items| == |d| && forall i :: 0 <= i < |d| ==> items[i] == Item(d[i])
  {
    seq(|d|, i requires 0 <= i < |d| => Item(d[i]))
  }

  /** What is printed: the stages, and their sum under the name "total". */
  function WithTotal(stages: Dict<nat>): Dict<nat> {
    Upsert<nat>(stages, "total", Total(stages))
  }

  function Header(stages: Dict<nat>): string {
    Join(Items(WithTotal(stages)), ", ")
  }

  // ---------------------------------------------------------------- parsing

  function NonEmpty(parts: seq<string>): seq<string> {
    if parts == [] then []
    else if parts[0] == "" then NonEmpty(parts[1..])
    else [parts[0]] + NonEmpty(parts[1..])
  }

  /** The name and the duration of one item; the error is the text that is not a number. */
  function ParseItem(item: string): Result<(string, Number), string> {
    var (name, _, duration) := Partition(Strip(item), SEPARATOR);
    match ParseFloat(duration)
    case None => Err(duration)
    case Some(value) => Ok((name, value))
  }

  function ParseItems(items: seq<string>, parsed: Dict<Number>): Result<Dict<Number>, string>
    decreases |items|
  {
    if items == [] then Ok(parsed)
    else
      match ParseItem(items[0])
      case Err(e) => Err(e)
      case Ok((name, value)) => ParseItems(items[1..], Upsert(parsed, name, value))
  }

  /** The items of a header, as they stand between the commas. */
  function Pieces(header: string): seq<string> {
    NonEmpty(SplitOn(header, ','))
  }

  function Parsed(header: string): Result<Dict<Number>, string> {
    ParseItems(Pieces(header), [])
  }

  method ParseServerTiming(header: string) returns (r: Result<Dict<Number>, string>)
    ensures r == Parsed(header)
  {
    var items := NonEmpty(SplitOn(header, ','));
    var parsed: Dict<Number> := [];
    for i := 0 to |items|
      invariant Parsed(header) == ParseItems(items[i..], parsed)
    {
      var rest := items[i..];
      assert rest[0] == items[i] && rest[1..] == items[i + 1..];
      match ParseItem(items[i]) {
        case Err(e) => return Err(e);
        case Ok((name, value)) => parsed := Upsert(parsed, name, value);
      }
    }
    return Ok(parsed);
  }

  lemma {:induction false} JoinOneMore(items: seq<string>, item: string)
    requires items != []
    ensures Join(items + [item], ", ") == Join(items, ", ") + ", " + item
  {
    if |items| == 1 {
      assert (items + [item])[1..] == [item];
    } else {
      JoinOneMore(items[1..], item);
      assert (items + [item])[1..] == items[1..] + [item];
    }
  }

  /** One stage as it is printed. */
  lemma ItemFormat(name: string, ns: nat)
    ensures Item((name, ns)) == name + ";dur=" + PrintFixed(Rounded(ns), 3)
  {
  }

  /** The header is the list of the stages in their order, and then the total. */
  lemma HeaderFormat(stages: Dict<nat>)
    requires !HasKey(stages, "total")
    ensures Header([]) == Item(("total", 0))
    ensures stages != [] ==> Header(stages) == Join(Items(stages), ", ") + ", " + Item(("total", Total(stages)))
  {
    UpsertNewKey<nat>(stages, "total", Total(stages));
    assert Items(WithTotal(stages)) == Items(stages) + [Item(("total", Total(stages)))];
    if stages != [] {
      JoinOneMore(Items(stages), Item(("total", Total(stages))));
    }
    assert WithTotal([]) == [("total", 0)];
    assert Items(WithTotal([])) == [Item(("total", 0))];
  }

  /** Reading fails exactly if some item has no number, and then reports what the first such item has instead. */
  lemma {:induction false} FirstBadItemIsReported(items: seq<string>, parsed: Dict<Number>)
    ensures ParseItems(items, parsed).Err? <==> exists k :: 0 <= k < |items| && IsBad(items[k])
    ensures ParseItems(items, parsed).Err? ==>
      exists k :: 0 <= k < |items| && IsBad(items[k]) && (forall j :: 0 <= j < k ==> !IsBad(items[j])) &&
        ParseItems(items, parsed).error == Partition(Strip(items[k]), SEPARATOR).2
    decreases |items|
  {
    if items == [] {
    } else if IsBad(items[0]) {
    } else {
      var (name, value) := ParseItem(items[0]).value;
      var rest := items[1..];
      FirstBadItemIsReported(rest, Upsert(parsed, name, value));
      assert forall k :: 0 <= k < |rest| ==> rest[k] == items[k + 1];
    }
  }

  /** What follows the first separator of the item is not a number. */
  predicate IsBad(item: string) {
    ParseFloat(Partition(Strip(item), ";dur=").2) == None
  }

  // ---------------------------------------------------------------- round trip

  /** The names that survive: no comma, no separator inside, no whitespace in front. */
  predicate CleanName(name: string) {
    && ',' !in name
    && !Contains(name, SEPARATOR)
    && (name != "" ==> !IsSpace(name[0]))
  }

  /** A duration as it is read back: in milliseconds, rounded to three decimals. */
  function Shown(ns: nat): Number {
    Finite(Decimal(Rounded(ns), MS_PLACES))
  }

  function RoundedDict(d: Dict<nat>): Dict<Number> {
    seq(|d|, i requires 0 <= i < |d| => (d[i].0, Shown(d[i].1)))
  }

  lemma {:induction false} PartitionAtSeparator(name: string, tail: string)
    requires !Contains(name, SEPARATOR)
    ensures Partition(name + SEPARATOR + tail, SEPARATOR) == (name, SEPARATOR, tail)
  {
    var s := name + SEPARATOR + tail;
    if name == "" {
      assert SEPARATOR <= s && s[|SEPARATOR|..] == tail;
    } else {
      if SEPARATOR <= s {
        NoOverlap(name, tail);
      }
      assert !(SEPARATOR <= s);
      PartitionAtSeparator(name[1..], tail);
      assert s[1..] == name[1..] + SEPARATOR + tail;
      assert [s[0]] + name[1..] == name;
    }
  }

  /** The separator cannot begin inside a name and end in the separator that follows it. */
  lemma NoOverlap(name: string, tail: string)
    requires name != "" && SEPARATOR <= name + SEPARATOR + tail
    ensures SEPARATOR <= name
  {
    var s := name + SEPARATOR + tail;
    assert |SEPARATOR| == 5;
    assert s[|name|] == ';' && forall k :: 0 < k < 5 ==> SEPARATOR[k] != ';';
    assert forall k :: 0 <= k < 5 ==> s[k] == SEPARATOR[k];
    assert s[..5] == name[..5];
  }

  lemma ItemEnds(entry: (string, nat))
    requires CleanName(entry.0)
    ensures var item := Item(entry);
            && item != "" && ',' !in item
            && !IsSpace(item[0]) && !IsSpace(item[|item| - 1])
  {
    var item := Item(entry);
    var number := PrintFixed(Rounded(entry.1), MS_PLACES);
    PrintedEnds(Rounded(entry.1), MS_PLACES);
    assert item[|item| - 1] == number[|number| - 1];
    assert item[0] == if entry.0 == "" then SEPARATOR[0] else entry.0[0];
    assert ',' !in SEPARATOR;
  }

  lemma ItemIsReadBack(entry: (string, nat))
    requires CleanName(entry.0)
    ensures ParseItem(Item(entry)) == ParseItem(" " + Item(entry)) == Ok((entry.0, Shown(entry.1)))
  {
    ItemEnds(entry);
    StripKeeps(Item(entry));
    PartitionAtSeparator(entry.0, PrintFixed(Rounded(entry.1), MS_PLACES));
    ParsePrinted(Rounded(entry.1), MS_PLACES);
  }

  /** The parts between the commas: the items, each but the first behind a blank. */
  function Parts(items: seq<string>, first: bool): seq<string> {
    if items == [] then [] else [if first then items[0] else " " + items[0]] + Parts(items[1..], false)
  }

  lemma {:induction false} SplitOfJoin(items: seq<string>, first: bool)
    requires items != [] && forall i :: 0 <= i < |items| ==> ',' !in items[i]
    ensures SplitOn((if first then "" else " ") + Join(items, ", "), ',') == Parts(items, first)
    decreases |items|
  {
    var head := if first then items[0] else " " + items[0];
    var s := (if first then "" else " ") + Join(items, ", ");
    if |items| == 1 {
      assert s == head;
      SplitWithoutSeparator(head, ',');
    } else {
      SplitOfJoin(items[1..], false);
      var rest := " " + Join(items[1..], ", ");
      assert s == head + [','] + rest;
      SplitWithoutSeparator(head, ',');
      SplitOfConcatenation(head, ',', rest);
    }
  }

  lemma {:induction false} NonEmptyKeeps(parts: seq<string>)
    requires forall i :: 0 <= i < |parts| ==> parts[i] != ""
    ensures NonEmpty(parts) == parts
  {
    if parts == [] {
    } else {
      NonEmptyKeeps(parts[1..]);
    }
  }

  lemma {:induction false} PartsAt(items: seq<string>, first: bool)
    ensures |Parts(items, first)| == |items|
    ensures forall i :: 0 <= i < |items| ==>
      Parts(items, first)[i] == if first && i == 0 then items[0] else " " + items[i]
    decreases |items|
  {
    if items == [] {
    } else {
      PartsAt(items[1..], false);
    }
  }

  lemma {:induction false} UpsertNewKey<V>(d: Dict<V>, key: string, value: V)
    requires !HasKey(d, key)
    ensures Upsert(d, key, value) == d + [(key, value)]
  {
    if d == [] {
    } else {
      KeyOfFirstOrRest(d, key);
      UpsertNewKey(d[1..], key, value);
      assert Upsert(d, key, value) == [d[0]] + (d[1..] + [(key, value)]);
    }
  }

  lemma ParseOneMore(items: seq<string>, parsed: Dict<Number>, name: string, value: Number)
    requires items != [] && ParseItem(items[0]) == Ok((name, value)) && !HasKey(parsed, name)
    ensures ParseItems(items, parsed) == ParseItems(items[1..], parsed + [(name, value)])
  {
    UpsertNewKey(parsed, name, value);
  }

  lemma FirstEntries<V>(d: Dict<V>, k: nat)
    requires DistinctKeys(d) && k < |d|
    ensures !HasKey(d[..k], d[k].0)
    ensures d[..k] + [(d[k].0, d[k].1)] == d[..k + 1]
  {
  }

  /** Items that each read as the entry of a dictionary read together as that dictionary, from entry k on. */
  lemma {:induction false} ItemsAreReadBack(d: Dict<Number>, items: seq<string>, k: nat)
    requires DistinctKeys(d) && k <= |d| == |items|
    requires forall i :: 0 <= i < |d| ==> ReadsAs(items[i], d[i])
    ensures ParseItems(items[k..], d[..k]) == Ok(d)
    decreases |d| - k
  {
    if k < |d| {
      var rest := items[k..];
      assert rest[0] == items[k] && rest[1..] == items[k + 1..];
      assert ReadsAs(items[k], d[k]);
      FirstEntries(d, k);
      ParseOneMore(rest, d[..k], d[k].0, d[k].1);
      ItemsAreReadBack(d, items, k + 1);
    } else {
      assert d[..k] == d;
    }
  }

  lemma SumsAssociate<T>(a: seq<T>, b: seq<T>, c: seq<T>)
    ensures a + (b + c) == a + b + c
  {
  }

  lemma {:induction false} NonEmptyOfConcatenation(a: seq<string>, b: seq<string>)
    ensures NonEmpty(a + b) == NonEmpty(a) + NonEmpty(b)
  {
    if a == [] {
      assert a + b == b;
    } else {
      NonEmptyOfConcatenation(a[1..], b);
      assert (a + b)[0] == a[0] && (a + b)[1..] == a[1..] + b;
      SumsAssociate([a[0]], NonEmpty(a[1..]), NonEmpty(b));
    }
  }

  lemma PiecesOfConcatenation(a: string, b: string)
    ensures Pieces(a + ("," + b)) == Pieces(a) + Pieces(b)
  {
    assert a + ("," + b) == a + [','] + b;
    SplitOfConcatenation(a, ',', b);
    NonEmptyOfConcatenation(SplitOn(a, ','), SplitOn(b, ','));
  }

  /** A comma too many, in front, at the end or in between, is ignored. */
  lemma EmptyPiecesAreIgnored(a: string, b: string)
    ensures Parsed("," + a) == Parsed(a)
    ensures Parsed(a + ",") == Parsed(a)
    ensures Parsed(a + ("," + ("," + b))) == Parsed(a + ("," + b))
  {
    NothingInFront(a);
    NothingAtTheEnd(a);
    NothingInBetween(a, b);
  }

  lemma NoPieces()
    ensures Pieces("") == []
  {
  }

  lemma NothingAtTheEnd(a: string)
    ensures Pieces(a + ",") == Pieces(a)
  {
    NoPieces();
    PiecesOfConcatenation(a, "");
    assert a + ("," + "") == a + ",";
  }

  lemma NothingInBetween(a: string, b: string)
    ensures Pieces(a + ("," + ("," + b))) == Pieces(a + ("," + b))
  {
    NothingInFront(b);
    PiecesOfConcatenation(a, "," + b);
    PiecesOfConcatenation(a, b);
  }

  lemma NothingInFront(a: string)
    ensures Pieces("," + a) == Pieces(a)
  {
    NoPieces();
    PiecesOfConcatenation("", a);
    assert "" + ("," + a) == "," + a;
  }

  predicate ReadsAs(item: string, entry: (string, Number)) {
    ParseItem(item) == Ok(entry)
  }

  lemma CleanDictIsReadBack(d: Dict<nat>)
    requires d != [] && DistinctKeys(d) && forall i :: 0 <= i < |d| ==> CleanName(d[i].0)
    ensures Parsed(Join(Items(d), ", ")) == Ok(RoundedDict(d))
  {
    var items, parts := Items(d), Parts(Items(d), true);
    forall i | 0 <= i < |d|
      ensures ',' !in items[i] && items[i] != ""
    {
      ItemEnds(d[i]);
    }
    JoinedPieces(items);
    PartsAt(items, true);
    forall i | 0 <= i < |d|
      ensures ReadsAs(parts[i], RoundedDict(d)[i])
    {
      ItemIsReadBack(d[i]);
    }
    assert parts[0..] == parts && RoundedDict(d)[..0] == [];
    ItemsAreReadBack(RoundedDict(d), parts, 0);
  }

  lemma JoinedPieces(items: seq<string>)
    requires items != [] && forall i :: 0 <= i < |items| ==> ',' !in items[i] && items[i] != ""
    ensures Pieces(Join(items, ", ")) == Parts(items, true)
  {
    SplitOfJoin(items, true);
    assert "" + Join(items, ", ") == Join(items, ", ");
    PartsAt(items, true);
    NonEmptyKeeps(Parts(items, true));
  }

  // ---------------------------------------------------------------- what parsing can return

  predicate CleanKeys(d: Dict<Number>) {
    forall i :: 0 <= i < |d| ==> CleanName(d[i].0)
  }

  lemma {:induction false} UpsertKeepsClean(d: Dict<Number>, key: string, value: Number)
    requires CleanKeys(d) && CleanName(key)
    ensures CleanKeys(Upsert(d, key, value))
  {
    if d == [] {
    } else {
      UpsertKeepsClean(d[1..], key, value);
    }
  }

  lemma ParsedNameIsClean(item: string)
    requires ',' !in item && ParseItem(item).Ok?
    ensures CleanName(ParseItem(item).value.0)
  {
    StripIsInside(item);
    PartitionHead(Strip(item), SEPARATOR);
    var name := Partition(Strip(item), SEPARATOR).0;
    if name != "" {
      assert name[0] == Strip(item)[0];
    }
  }

  lemma {:induction false} ParsedKeysAreClean(items: seq<string>, parsed: Dict<Number>)
    requires CleanKeys(parsed) && forall i :: 0 <= i < |items| ==> ',' !in items[i]
    ensures ParseItems(items, parsed).Ok? ==> CleanKeys(ParseItems(items, parsed).value)
    decreases |items|
  {
    if items == [] || ParseItem(items[0]).Err? {
    } else {
      var (name, value) := ParseItem(items[0]).value;
      ParsedNameIsClean(items[0]);
      UpsertKeepsClean(parsed, name, value);
      ParsedKeysAreClean(items[1..], Upsert(parsed, name, value));
    }
  }

  lemma {:induction false} NonEmptyWithoutCommas(parts: seq<string>)
    requires forall i :: 0 <= i < |parts| ==> ',' !in parts[i]
    ensures forall i :: 0 <= i < |NonEmpty(parts)| ==> ',' !in NonEmpty(parts)[i]
  {
    if parts == [] {
    } else {
      NonEmptyWithoutCommas(parts[1..]);
    }
  }

  lemma {:induction false} UpsertKeepsDistinct<V>(d: Dict<V>, key: string, value: V)
    requires DistinctKeys(d)
    ensures DistinctKeys(Upsert(d, key, value)) && HasKey(Upsert(d, key, value), key)
    ensures forall k :: HasKey(Upsert(d, key, value), k) <==> k == key || HasKey(d, k)
  {
    if d == [] {
      assert Upsert(d, key, value)[0].0 == key;
    } else {
      var rest := d[1..];
      UpsertKeepsDistinct(rest, key, value);
      assert forall k :: HasKey(d, k) <==> d[0].0 == k || HasKey(rest, k) by {
        forall k
          ensures HasKey(d, k) <==> d[0].0 == k || HasKey(rest, k)
        {
          KeyOfFirstOrRest(d, k);
        }
      }
      var u := Upsert(d, key, value);
      forall k
        ensures HasKey(u, k) <==> u[0].0 == k || HasKey(u[1..], k)
      {
        KeyOfFirstOrRest(u, k);
      }
      assert !HasKey(rest, d[0].0);
      assert u[1..] == if d[0].0 == key then rest else Upsert(rest, key, value);
    }
  }

  lemma KeyOfFirstOrRest<V>(d: Dict<V>, k: string)
    requires d != []
    ensures HasKey(d, k) <==> d[0].0 == k || HasKey(d[1..], k)
  {
    if i :| 0 <= i < |d| && d[i].0 == k {
      assert i > 0 ==> d[1..][i - 1].0 == k;
    }
    if HasKey(d[1..], k) {
      var i :| 0 <= i < |d[1..]| && d[1..][i].0 == k;
      assert d[i + 1].0 == k;
    }
  }

  /**
   The header is read back, every stage and the total rounded to three decimals, exactly if all stage names are clean.
   */
  lemma HeaderRoundTrip(stages: Dict<nat>)
    requires DistinctKeys(stages)
    ensures Parsed(Header(stages)) == Ok(RoundedDict(WithTotal(stages))) <==>
            forall i :: 0 <= i < |stages| ==> CleanName(stages[i].0)
  {
    var d := WithTotal(stages);
    UpsertKeepsDistinct<nat>(stages, "total", Total(stages));
    CleanTotal();
    forall i | 0 <= i < |d|
      ensures d[i].0 == "total" || HasKey(stages, d[i].0)
    {
      assert HasKey(d, d[i].0);
    }
    if forall i :: 0 <= i < |stages| ==> CleanName(stages[i].0) {
      CleanDictIsReadBack(d);
    }
    if Parsed(Header(stages)) == Ok(RoundedDict(d)) {
      NonEmptyWithoutCommas(SplitOn(Header(stages), ','));
      ParsedKeysAreClean(NonEmpty(SplitOn(Header(stages), ',')), []);
      forall i | 0 <= i < |stages|
        ensures CleanName(stages[i].0)
      {
        assert HasKey(stages, stages[i].0);
        var j :| 0 <= j < |d| && d[j].0 == stages[i].0;
        assert RoundedDict(d)[j].0 == d[j].0;
      }
    }
  }

  lemma CleanTotal()
    ensures CleanName("total")
  {
    TooShortToContain("total"[1..], SEPARATOR);
    assert SEPARATOR[0] != "total"[0];
  }

  /** The printed value of a duration. */
  function Printed(ns: Option<nat>): Option<Number> {
    match ns
    case None => None
    case Some(ns) => Some(Shown(ns))
  }

  lemma {:induction false} RoundedLookup(d: Dict<nat>, key: string)
    ensures Lookup(RoundedDict(d), key) == Printed(Lookup(d, key))
  {
    if d == [] {
    } else {
      RoundedLookup(d[1..], key);
      assert RoundedDict(d)[1..] == RoundedDict(d[1..]);
    }
  }

  lemma {:induction false} LookupOfEntry<V>(d: Dict<V>, i: nat)
    requires DistinctKeys(d) && i < |d|
    ensures Lookup(d, d[i].0) == Some(d[i].1)
  {
    if i == 0 {
    } else {
      LookupOfEntry(d[1..], i - 1);
    }
  }

  /**
   The header of a timer with clean stage names gives every stage its own duration back, rounded to three decimals,
   except a stage called "total", which gets the sum: that is right exactly if the two are rounded to the same.
   */
  lemma StageIsReadBack(stages: Dict<nat>, i: nat)
    requires DistinctKeys(stages) && i < |stages| && forall k :: 0 <= k < |stages| ==> CleanName(stages[k].0)
    ensures var parsed := Parsed(Header(stages));
            && parsed.Ok?
            && Lookup(parsed.value, "total") == Some(Shown(Total(stages)))
            && (Lookup(parsed.value, stages[i].0) == Some(Shown(stages[i].1)) <==>
                 (stages[i].0 == "total" ==> Rounded(Total(stages)) == Rounded(stages[i].1)))
  {
    HeaderRoundTrip(stages);
    LookupOfEntry<nat>(stages, i);
    StageOfTotal(stages, "total");
    StageOfTotal(stages, stages[i].0);
  }

  lemma StageOfTotal(stages: Dict<nat>, key: string)
    ensures Lookup(RoundedDict(WithTotal(stages)), key) ==
            Printed(if key == "total" then Some(Total(stages)) else Lookup(stages, key))
  {
    RoundedLookup(WithTotal(stages), key);
    UpsertIsUpdate<nat>(stages, "total", Total(stages), key);
  }

  /** Two stages of 1 ms and 2 ms, the second called "total": it is read back as 3 ms. */
  lemma StageCalledTotalIsLost(stages: Dict<nat>)
    requires stages == [("parse", 1000000), ("total", 2000000)]
    ensures var parsed := Parsed(Header(stages));
            parsed.Ok? && Lookup(parsed.value, "total") == Some(Finite(Decimal(3000, MS_PLACES)))
  {
    TooShortToContain("arse", SEPARATOR);
    assert SEPARATOR[0] != "parse"[0];
    CleanTotal();
    assert "parse"[1..] == "arse";
    assert "parse"[0] != "total"[0];
    assert stages[1..] == [("total", 2000000)] && stages[1..][1..] == [];
    assert Total(stages[1..]) == 2000000 + Total(stages[1..][1..]);
    assert Total(stages) == 3000000;
    StageIsReadBack(stages, 0);
  }

  // ---------------------------------------------------------------- sums

  /** One lap: the name of the stage that ends, and the reading of the clock. */
  type Lap = (string, nat)

  predicate Forward(start: nat, laps: seq<Lap>) {
    && (laps != [] ==> start <= laps[0].1)
    && forall i :: 0 < i < |laps| ==> laps[i - 1].1 <= laps[i].1
  }

  function LastReading(start: nat, laps: seq<Lap>): nat {
    if laps == [] then start else laps[|laps| - 1].1
  }

  /** The stages after these laps, as `StageTimer.Lap` records them. */
  function Recorded(start: nat, laps: seq<Lap>): Dict<nat>
    requires Forward(start, laps)
  {
    if laps == [] then []
    else
      var before, lap := laps[..|laps| - 1], laps[|laps| - 1];
      Upsert<nat>(Recorded(start, before), lap.0, lap.1 - LastReading(start, before))
  }

  lemma {:induction false} RecordedKeysAreDistinct(start: nat, laps: seq<Lap>)
    requires Forward(start, laps)
    ensures DistinctKeys(Recorded(start, laps))
  {
    if laps == [] {
    } else {
      var before, lap := laps[..|laps| - 1], laps[|laps| - 1];
      RecordedKeysAreDistinct(start, before);
      UpsertKeepsDistinct<nat>(Recorded(start, before), lap.0, lap.1 - LastReading(start, before));
    }
  }

  lemma {:induction false} TotalOfAppend(d: Dict<nat>, entry: (string, nat))
    ensures Total(d + [entry]) == Total(d) + entry.1
  {
    if d == [] {
    } else {
      assert (d + [entry])[1..] == d[1..] + [entry];
      TotalOfAppend(d[1..], entry);
    }
  }

  /** The names of the stages are those of the laps, in order. */
  predicate NamedAs(d: Dict<nat>, laps: seq<Lap>) {
    |d| == |laps| && forall i :: 0 <= i < |laps| ==> d[i].0 == laps[i].0
  }

  lemma OneMoreStage(d: Dict<nat>, laps: seq<Lap>, ns: nat)
    requires DistinctKeys(laps) && laps != [] && NamedAs(d, laps[..|laps| - 1])
    ensures var d' := Upsert<nat>(d, laps[|laps| - 1].0, ns);
            NamedAs(d', laps) && Total(d') == Total(d) + ns
  {
    var name := laps[|laps| - 1].0;
    assert !HasKey(d, name);
    UpsertNewKey<nat>(d, name, ns);
    TotalOfAppend(d, (name, ns));
  }

  /** All laps are kept under their names, and the stages add up to the time since the start. */
  predicate AddsUp(start: nat, laps: seq<Lap>)
    requires Forward(start, laps)
  {
    NamedAs(Recorded(start, laps), laps) && Total(Recorded(start, laps)) == LastReading(start, laps) - start
  }

  lemma OneMoreLap(start: nat, laps: seq<Lap>)
    requires Forward(start, laps) && DistinctKeys(laps) && laps != [] && AddsUp(start, laps[..|laps| - 1])
    ensures AddsUp(start, laps)
  {
    var before := laps[..|laps| - 1];
    OneMoreStage(Recorded(start, before), laps, LastReading(start, laps) - LastReading(start, before));
  }

  /** With distinct names the laps are all kept, and add up to the time from construction to the last lap. */
  lemma {:induction false} LapsAddUp(start: nat, laps: seq<Lap>)
    requires Forward(start, laps) && DistinctKeys(laps)
    ensures NamedAs(Recorded(start, laps), laps)
    ensures Total(Recorded(start, laps)) == LastReading(start, laps) - start
  {
    if laps == [] {
    } else {
      LapsAddUp(start, laps[..|laps| - 1]);
      OneMoreLap(start, laps);
    }
  }

  /** Stage i is lap i: its name, and the time since the reading before it. */
  predicate IsLap(start: nat, laps: seq<Lap>, d: Dict<nat>, i: nat)
    requires Forward(start, laps) && i < |laps|
  {
    i < |d| && d[i] == (laps[i].0, laps[i].1 - if i == 0 then start else laps[i - 1].1)
  }

  lemma LapOfFront(start: nat, laps: seq<Lap>, i: nat)
    requires Forward(start, laps) && DistinctKeys(laps) && i < |laps| - 1 && AddsUp(start, laps[..|laps| - 1])
    requires IsLap(start, laps[..|laps| - 1], Recorded(start, laps[..|laps| - 1]), i)
    ensures IsLap(start, laps, Recorded(start, laps), i)
  {
    NewStageIsLast(start, laps);
  }

  lemma NewestIsLap(start: nat, laps: seq<Lap>)
    requires Forward(start, laps) && DistinctKeys(laps) && laps != [] && AddsUp(start, laps[..|laps| - 1])
    ensures IsLap(start, laps, Recorded(start, laps), |laps| - 1)
  {
    NewStageIsLast(start, laps);
  }

  /** With distinct names every stage is its lap. */
  lemma {:induction false} StageIsLap(start: nat, laps: seq<Lap>, i: nat)
    requires Forward(start, laps) && DistinctKeys(laps) && i < |laps|
    ensures IsLap(start, laps, Recorded(start, laps), i)
    decreases |laps|
  {
    var before := laps[..|laps| - 1];
    LapsAddUp(start, before);
    if i == |laps| - 1 {
      NewestIsLap(start, laps);
    } else {
      StageIsLap(start, before, i);
      LapOfFront(start, laps, i);
    }
  }

  lemma NewStageIsLast(start: nat, laps: seq<Lap>)
    requires Forward(start, laps) && DistinctKeys(laps) && laps != [] && AddsUp(start, laps[..|laps| - 1])
    ensures var before, last := laps[..|laps| - 1], laps[|laps| - 1];
            Recorded(start, laps) == Recorded(start, before) + [(last.0, last.1 - LastReading(start, before))]
  {
    var before, last := laps[..|laps| - 1], laps[|laps| - 1];
    assert !HasKey(Recorded(start, before), last.0);
    UpsertNewKey<nat>(Recorded(start, before), last.0, last.1 - LastReading(start, before));
  }

  function SumOfRounded(d: Dict<nat>): nat {
    if d == [] then 0 else Rounded(d[0].1) + SumOfRounded(d[1..])
  }

  /** The printed total, in microseconds, is off the sum of the k printed stages by at most (k + 1) / 2. */
  lemma {:induction false} PrintedTotalIsClose(d: Dict<nat>)
    ensures -500 * |d| <= 1000 * SumOfRounded(d) - Total(d) <= 500 * |d|
    ensures -(|d| + 1) <= 2 * (Rounded(Total(d)) - SumOfRounded(d)) <= |d| + 1
  {
    if d == [] {
    } else {
      PrintedTotalIsClose(d[1..]);
    }
  }

  // ---------------------------------------------------------------- the timer

  class StageTimer {
    var stages: Dict<nat>
    var last: nat

    ghost const start: nat    // the reading at construction
    ghost var laps: seq<Lap>  // all laps so far

    ghost predicate Valid()
      reads this
    {
      && Forward(start, laps)
      && stages == Recorded(start, laps)
      && last == LastReading(start, laps)
    }

    constructor (now: nat)
      ensures Valid() && start == now && laps == []
    {
      stages, last := [], now;
      start, laps := now, [];
    }

    /** The clock never goes backwards.  A lap with a known name replaces the earlier duration in its place. */
    method Lap(name: string, now: nat)
      requires Valid() && last <= now
      modifies this
      ensures Valid() && laps == old(laps) + [(name, now)]
    {
      stages := Upsert<nat>(stages, name, now - last);
      last := now;
      laps := laps + [(name, now)];
      assert laps[..|laps| - 1] == old(laps);
    }

    /** What is printed is read back, with the sum as "total", exactly if all stage names are clean. */
    function ServerTimingValue(): (header: string)
      reads this
      requires Valid()
      ensures Parsed(header) == Ok(RoundedDict(WithTotal(stages))) <==>
              forall i :: 0 <= i < |stages| ==> CleanName(stages[i].0)
    {
      RecordedKeysAreDistinct(start, laps);
      HeaderRoundTrip(stages);
      Header(stages)
    }
  }
}
