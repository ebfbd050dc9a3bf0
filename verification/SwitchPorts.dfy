/** The interface table of a switch: five columns of the interfaces group joined by row index. */
module SwitchPorts {
  import opened Wrappers
  import opened MacFormat
  import opened Walks

  type TextColumn = seq<Item<string, string>>
  type IntColumn = seq<Item<string, int>>

  datatype Interface = Interface(port: int, description: string, status: string, mode: string, speed: string)

  /** What the dictionary holds for one row index; None where a column has no row for it. */
  datatype Entry = Entry(ifIndex: int, description: Option<string>, status: Option<string>, alias: Option<string>, speed: Option<string>)

  function GetOr<T>(o: Option<T>, default: T): T {
    if o.Some? then o.value else default
  }

  predicate Contains(s: string, word: string)
    decreases |s|
  {
    word <= s || (s != "" && Contains(s[1..], word))
  }

  function Decimal(n: nat): string {
    if n < 10 then [("0123456789")[n]] else Decimal(n / 10) + [("0123456789")[n % 10]]
  }

  /** `up` for operational status 1, `down` for every other number. */
  function StatusText(status: int): string {
    if status == 1 then "up" else "down"
  }

  /** Bits per second shown in whole megabits. */
  function SpeedText(speed: int): string {
    if speed > 0 then Decimal(speed / 1_000_000) + " Mbps" else ""
  }

  function MapValue<T, U>(o: Option<T>, f: T -> U): Option<U> {
    if o.Some? then Some(f(o.value)) else None
  }

  function Shown(e: Entry): Interface {
    Interface(e.ifIndex, GetOr(e.description, ""), GetOr(e.status, "unknown"),
      if Contains(LowerAll(GetOr(e.alias, "")), "trunk") then "Trunk" else "Access", GetOr(e.speed, ""))
  }

  /** The row of an index, as the last value of each column. */
  function EntryOf(key: string, ifIndex: int, descr: TextColumn, oper: IntColumn, alias: TextColumn, speed: IntColumn): Entry {
    Entry(ifIndex, LastValue(descr, key), MapValue(LastValue(oper, key), StatusText), LastValue(alias, key),
      MapValue(LastValue(speed, key), SpeedText))
  }

  predicate AllComplete(index: IntColumn, descr: TextColumn, oper: IntColumn, alias: TextColumn, speed: IntColumn) {
    Complete(index) && Complete(descr) && Complete(oper) && Complete(alias) && Complete(speed)
  }

  /** The joined table: one port per row index, in order of first appearance; nothing when a row was unreadable. */
  function Table(index: IntColumn, descr: TextColumn, oper: IntColumn, alias: TextColumn, speed: IntColumn): seq<Interface> {
    if !AllComplete(index, descr, oper, alias, speed) then []
    else
      var keys := FirstSeen(index);
      seq(|keys|, i requires 0 <= i < |keys| =>
        assert keys[i] in keys;
        Shown(EntryOf(keys[i], LastValue(index, keys[i]).value, descr, oper, alias, speed)))
  }

  /** Adds a text column, the description or the alias, to the rows the dictionary has. */
  method FillText(entries: map<string, Entry>, column: TextColumn, isAlias: bool) returns (ok: bool, filled: map<string, Entry>)
    ensures ok <==> Complete(column)
    ensures ok ==> filled.Keys == entries.Keys
    ensures ok ==> forall k :: k in entries ==>
              filled[k] == if LastValue(column, k).None? then entries[k]
                           else if isAlias then entries[k].(alias := LastValue(column, k))
                           else entries[k].(description := LastValue(column, k))
  {
    filled := entries;
    for i := 0 to |column|
      invariant Complete(column[..i]) && filled.Keys == entries.Keys
      invariant forall k :: k in entries ==>
                  filled[k] == if LastValue(column[..i], k).None? then entries[k]
                               else if isAlias then entries[k].(alias := LastValue(column[..i], k))
                               else entries[k].(description := LastValue(column[..i], k))
    {
      if column[i].Bad? {
        return false, map[];
      }
      forall k { LastValueSnoc(column, i, k); }
      var key := column[i].index;
      if key in filled {
        filled := filled[key := if isAlias then filled[key].(alias := Some(column[i].value))
                                else filled[key].(description := Some(column[i].value))];
      }
    }
    assert column[..|column|] == column;
    ok := true;
  }

  method FillNumber(entries: map<string, Entry>, column: IntColumn, isSpeed: bool) returns (ok: bool, filled: map<string, Entry>)
    ensures ok <==> Complete(column)
    ensures ok ==> filled.Keys == entries.Keys
    ensures ok ==> forall k :: k in entries ==>
              filled[k] == if LastValue(column, k).None? then entries[k]
                           else if isSpeed then entries[k].(speed := Some(SpeedText(LastValue(column, k).value)))
                           else entries[k].(status := Some(StatusText(LastValue(column, k).value)))
  {
    filled := entries;
    for i := 0 to |column|
      invariant Complete(column[..i]) && filled.Keys == entries.Keys
      invariant forall k :: k in entries ==>
                  filled[k] == if LastValue(column[..i], k).None? then entries[k]
                               else if isSpeed then entries[k].(speed := Some(SpeedText(LastValue(column[..i], k).value)))
                               else entries[k].(status := Some(StatusText(LastValue(column[..i], k).value)))
    {
      if column[i].Bad? {
        return false, map[];
      }
      forall k { LastValueSnoc(column, i, k); }
      var key := column[i].index;
      if key in filled {
        filled := filled[key := if isSpeed then filled[key].(speed := Some(SpeedText(column[i].value)))
                                else filled[key].(status := Some(StatusText(column[i].value)))];
      }
    }
    assert column[..|column|] == column;
    ok := true;
  }

  /** The dictionary of the index column and the order it was filled in. */
  method ReadIndexes(index: IntColumn) returns (ok: bool, order: seq<string>, entries: map<string, Entry>)
    ensures ok <==> Complete(index)
    ensures ok ==> order == FirstSeen(index)
    ensures ok ==> forall k :: LastValue(index, k).Some? <==> k in entries
    ensures ok ==> forall k :: k in entries ==> entries[k] == Entry(LastValue(index, k).value, None, None, None, None)
  {
    order, entries := [], map[];
    for i := 0 to |index|
      invariant Complete(index[..i]) && order == FirstSeen(index[..i])
      invariant forall k :: LastValue(index[..i], k).Some? <==> k in entries
      invariant forall k :: k in entries ==> entries[k] == Entry(LastValue(index[..i], k).value, None, None, None, None)
    {
      if index[i].Bad? {
        return false, [], map[];
      }
      forall k { LastValueSnoc(index, i, k); }
      assert index[..i + 1][..i] == index[..i];
      if index[i].index !in order {
        order := order + [index[i].index];
      }
      entries := entries[index[i].index := Entry(index[i].value, None, None, None, None)];
    }
    assert index[..|index|] == index;
    ok := true;
  }

  /** The four columns, each into its own field of the rows the index column listed. */
  method FillColumns(start: map<string, Entry>, descr: TextColumn, oper: IntColumn, alias: TextColumn, speed: IntColumn)
    returns (ok: bool, entries: map<string, Entry>)
    requires forall k :: k in start ==> start[k] == Entry(start[k].ifIndex, None, None, None, None)
    ensures ok <==> Complete(descr) && Complete(oper) && Complete(alias) && Complete(speed)
    ensures ok ==> entries.Keys == start.Keys
    ensures ok ==> forall k :: k in start ==> entries[k] == EntryOf(k, start[k].ifIndex, descr, oper, alias, speed)
  {
    ok, entries := FillText(start, descr, false);
    if !ok { return; }
    ok, entries := FillNumber(entries, oper, false);
    if !ok { return; }
    ok, entries := FillText(entries, alias, true);
    if !ok { return; }
    ok, entries := FillNumber(entries, speed, true);
  }

  method ListPorts(order: seq<string>, entries: map<string, Entry>) returns (ports: seq<Interface>)
    requires forall i :: 0 <= i < |order| ==> order[i] in entries
    ensures |ports| == |order| && forall i :: 0 <= i < |order| ==> ports[i] == Shown(entries[order[i]])
  {
    ports := [];
    for i := 0 to |order|
      invariant |ports| == i && forall j :: 0 <= j < i ==> ports[j] == Shown(entries[order[j]])
    {
      ports := ports + [Shown(entries[order[i]])];
    }
  }

  /** `get_switch_ports`: the joined table, or nothing when any row of any column could not be read. */
  method GetSwitchPorts(index: IntColumn, descr: TextColumn, oper: IntColumn, alias: TextColumn, speed: IntColumn)
    returns (ports: seq<Interface>)
    ensures ports == Table(index, descr, oper, alias, speed)
    ensures !Complete(index) || !Complete(descr) || !Complete(oper) || !Complete(alias) || !Complete(speed) ==> ports == []
  {
    var ok, order, entries := ReadIndexes(index);
    if !ok { return []; }
    ok, entries := FillColumns(entries, descr, oper, alias, speed);
    if !ok { return []; }
    forall i | 0 <= i < |order| ensures order[i] in entries { assert order[i] in order; }
    ports := ListPorts(order, entries);
  }

  /** No two row indexes carry the same ifIndex, as in a table that is indexed by it. */
  predicate OneIndexPerPort(index: IntColumn) {
    forall i, j :: 0 <= i < j < |index| && index[i].Item? && index[j].Item? && index[i].value == index[j].value ==>
      index[i].index == index[j].index
  }

  lemma LastValueRow(index: IntColumn, key: string) returns (i: nat)
    requires LastValue(index, key).Some?
    ensures i < |index| && index[i] == Item(key, LastValue(index, key).value)
  {
    var n := |index| - 1;
    if index[n].Item? && index[n].index == key {
      i := n;
    } else {
      i := LastValueRow(index[..n], key);
    }
  }

  /** Then the listed ports have distinct numbers, whatever was read twice. */
  lemma {:induction false} PortsAreDistinct(index: IntColumn, descr: TextColumn, oper: IntColumn, alias: TextColumn, speed: IntColumn)
    requires OneIndexPerPort(index)
    ensures var ports := Table(index, descr, oper, alias, speed);
            forall i, j :: 0 <= i < j < |ports| ==> ports[i].port != ports[j].port
  {
    var keys, ports := FirstSeen(index), Table(index, descr, oper, alias, speed);
    forall i, j | 0 <= i < j < |ports| ensures ports[i].port != ports[j].port {
      assert keys[i] in keys && keys[j] in keys && keys[i] != keys[j];
      var a := LastValueRow(index, keys[i]);
      var b := LastValueRow(index, keys[j]);
      assert ports[i].port == index[a].value && ports[j].port == index[b].value;
    }
  }

  // ----- what the columns show

  /** A decimal numeral without a leading zero that reads back as the number. */
  lemma {:induction false} DecimalReads(n: nat)
    ensures AllDigits(Decimal(n)) && ParseNat(Decimal(n)) == n && (n > 0 ==> Decimal(n)[0] != '0')
  {
    if n >= 10 {
      DecimalReads(n / 10);
      assert Decimal(n)[..|Decimal(n)| - 1] == Decimal(n / 10);
    }
  }

  /** The text starts with the word, in any mixture of cases. */
  predicate TrunkHere(text: string) {
    && |text| >= 5
    && (text[0] == 't' || text[0] == 'T') && (text[1] == 'r' || text[1] == 'R') && (text[2] == 'u' || text[2] == 'U')
    && (text[3] == 'n' || text[3] == 'N') && (text[4] == 'k' || text[4] == 'K')
  }

  ghost predicate Mentions(text: string) {
    exists k :: 0 <= k <= |text| && TrunkHere(text[k..])
  }

  lemma {:induction false} ContainsExactly(s: string, word: string)
    ensures Contains(s, word) <==> exists k :: 0 <= k <= |s| && word <= s[k..]
    decreases |s|
  {
    if word <= s {
      assert s[0..] == s;
    } else if s != "" {
      ContainsExactly(s[1..], word);
      if k :| 0 <= k <= |s| && word <= s[k..] {
        assert k > 0 by { assert s[0..] == s; }
        assert s[1..][k - 1..] == s[k..];
      }
      if k :| 0 <= k <= |s[1..]| && word <= s[1..][k..] {
        assert s[k + 1..] == s[1..][k..];
      }
    } else {
      assert forall k :: 0 <= k <= |s| ==> s[k..] == s;
    }
  }

  lemma LowerTrunk(text: string)
    ensures "trunk" <= LowerAll(text) <==> TrunkHere(text)
  {
    var low := LowerAll(text);
    if |text| >= 5 {
      assert low[0] == Lower(text[0]) && low[1] == Lower(text[1]) && low[2] == Lower(text[2]);
      assert low[3] == Lower(text[3]) && low[4] == Lower(text[4]);
    }
  }

  lemma {:induction false} TrunkExactly(alias: string)
    ensures Contains(LowerAll(alias), "trunk") <==> Mentions(alias)
  {
    ContainsExactly(LowerAll(alias), "trunk");
    forall k | 0 <= k <= |alias| ensures "trunk" <= LowerAll(alias)[k..] <==> TrunkHere(alias[k..]) {
      assert LowerAll(alias)[k..] == LowerAll(alias[k..]);
      LowerTrunk(alias[k..]);
    }
  }

  /** What a listed port shows, read off the last row of each column for its index. */
  lemma {:induction false} PortShows(index: IntColumn, descr: TextColumn, oper: IntColumn, alias: TextColumn, speed: IntColumn, i: nat)
    requires AllComplete(index, descr, oper, alias, speed) && i < |FirstSeen(index)|
    ensures |Table(index, descr, oper, alias, speed)| == |FirstSeen(index)|
    ensures var p, k := Table(index, descr, oper, alias, speed)[i], FirstSeen(index)[i];
            && LastValue(index, k) == Some(p.port)
            && p.description == (match LastValue(descr, k) case Some(text) => text case None => "")
            && p.status == (match LastValue(oper, k) case None => "unknown" case Some(n) => if n == 1 then "up" else "down")
            && p.mode == (if LastValue(alias, k).Some? && Mentions(LastValue(alias, k).value) then "Trunk" else "Access")
            && (match LastValue(speed, k)
                case None => p.speed == ""
                case Some(bits) =>
                  if bits <= 0 then p.speed == ""
                  else exists n: nat :: p.speed == Decimal(n) + " Mbps" && n * 1_000_000 <= bits < (n + 1) * 1_000_000)
  {
    var k := FirstSeen(index)[i];
    assert k in FirstSeen(index);
    TrunkExactly(GetOr(LastValue(alias, k), ""));
    if LastValue(speed, k).Some? && LastValue(speed, k).value > 0 {
      var bits := LastValue(speed, k).value;
      var n: nat := bits / 1_000_000;
      assert SpeedText(bits) == Decimal(n) + " Mbps" && n * 1_000_000 <= bits < (n + 1) * 1_000_000;
    }
  }
}
