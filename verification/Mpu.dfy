/** Loading a table of regions into the ARMv7-M memory protection unit: `ARM_MPU_Load` copies rows
    through the base register pair and its three aliases, `ARM_MPU_SetRegion` sets one row.
    Register behaviour: sections B3.5.8 and B3.5.10 of the ARMv7-M Architecture Reference Manual. */
module Mpu {

  const RALIASES := 4

  datatype Row = Row(rbar: nat, rasr: nat)

  // ----- Fields of RBAR -----

  predicate IsValid(rbar: nat) {
    rbar / 16 % 2 == 1
  }

  function RegionField(rbar: nat): nat {
    rbar % 16
  }

  function AddressField(rbar: nat): nat {
    rbar / 32
  }

  /** The three fields make up the register. */
  lemma FieldsMakeUpRbar(rbar: nat)
    ensures rbar == 32 * AddressField(rbar) + (if IsValid(rbar) then 16 else 0) + RegionField(rbar)
    ensures RegionField(rbar) < 16
  {
  }

  // ----- Register writes -----

  datatype Region = Region(address: nat, attributes: nat)

  const RESET := Region(0, 0)

  /** `rnr` selects the region that the other registers refer to. */
  datatype MpuState = MpuState(rnr: nat, regions: map<nat, Region>) {
    function Get(r: nat): Region {
      if r in regions then regions[r] else RESET
    }

    /** A base address with VALID set selects its own region first. */
    function WriteRbar(v: nat): MpuState {
      var r := if IsValid(v) then RegionField(v) else rnr;
      MpuState(r, regions[r := Get(r).(address := AddressField(v))])
    }

    function WriteRasr(v: nat): MpuState {
      this.(regions := regions[rnr := Get(rnr).(attributes := v)])
    }

    /** The eight words from RBAR on are RBAR, RASR and three alias pairs. */
    function WriteWord(i: nat, v: nat): MpuState
      requires i < 2 * RALIASES
    {
      if i % 2 == 0 then WriteRbar(v) else WriteRasr(v)
    }

    function SetRegion(row: Row): MpuState {
      WriteRbar(row.rbar).WriteRasr(row.rasr)
    }
  }

  function SetEach(s: MpuState, table: seq<Row>): MpuState {
    if table == [] then s else SetEach(s, table[..|table| - 1]).SetRegion(table[|table| - 1])
  }

  /** The table as the words it occupies in memory. */
  function Words(table: seq<Row>): (w: seq<nat>)
    ensures |w| == 2 * |table|
    ensures forall i :: 0 <= i < |table| ==> w[2 * i] == table[i].rbar && w[2 * i + 1] == table[i].rasr
  {
    seq(2 * |table|, i requires 0 <= i < 2 * |table| => if i % 2 == 0 then table[i / 2].rbar else table[i / 2].rasr)
  }

  /** Words written in order from RBAR on; past the fourth pair there is nothing to write to. */
  function WriteWords(s: MpuState, words: seq<nat>): MpuState
    requires |words| <= 2 * RALIASES
  {
    if words == [] then s
    else WriteWords(s, words[..|words| - 1]).WriteWord(|words| - 1, words[|words| - 1])
  }

  class Mpu {
    var rnr: nat
    var regions: map<nat, Region>

    constructor ()
      ensures View() == MpuState(0, map[])
    {
      rnr, regions := 0, map[];
    }

    ghost function View(): MpuState
      reads this
    {
      MpuState(rnr, regions)
    }

    method WriteWord(i: nat, v: nat)
      requires i < 2 * RALIASES
      modifies this
      ensures View() == old(View()).WriteWord(i, v)
    {
      if i % 2 == 0 {
        if IsValid(v) {
          rnr := RegionField(v);
        }
        var region := if rnr in regions then regions[rnr] else RESET;
        regions := regions[rnr := region.(address := AddressField(v))];
      } else {
        var region := if rnr in regions then regions[rnr] else RESET;
        regions := regions[rnr := region.(attributes := v)];
      }
    }

    /** `ARM_MPU_SetRegion` */
    method SetRegion(rbar: nat, rasr: nat)
      modifies this
      ensures View() == old(View()).SetRegion(Row(rbar, rasr))
      ensures var r := if rbar % 32 >= 16 then rbar % 16 else old(rnr);
              && View().rnr == r
              && 32 * View().Get(r).address == rbar - rbar % 32 && View().Get(r).attributes == rasr
              && forall q: nat :: q != r ==> View().Get(q) == old(View()).Get(q)
    {
      WriteWord(0, rbar);
      WriteWord(1, rasr);
    }

    /** `orderedCpy` to the words from RBAR on; it must not go past the fourth alias pair. */
    method OrderedCpy(src: seq<nat>, len: nat)
      requires len <= 2 * RALIASES && len <= |src|
      modifies this
      ensures View() == WriteWords(old(View()), src[..len])
    {
      for i := 0 to len
        invariant View() == WriteWords(old(View()), src[..i])
      {
        WriteWord(i, src[i]);
        assert src[..i + 1][..i] == src[..i];
      }
    }

    /** `ARM_MPU_Load`: four rows at a time through the aliases, then the rest. */
    method Load(table: seq<Row>, count: nat)
      requires count <= |table|
      modifies this
      ensures View() == SetEach(old(View()), table[..count])
      ensures NamesDistinctRegions(table[..count]) ==> HoldsTable(old(View()), View(), table[..count])
    {
      hide Words, WriteWords, HoldsTable, NamesDistinctRegions;
      var rest, cnt: nat := table, count;
      ghost var done: nat := 0;
      while cnt > RALIASES
        invariant cnt + done == count && rest == table[done..]
        invariant View() == SetEach(old(View()), table[..done])
      {
        OrderedCpy(Words(rest), 2 * RALIASES);
        ChunkSetsRows(old(View()), table, done, RALIASES);
        rest := rest[RALIASES..];
        cnt := cnt - RALIASES;
        done := done + RALIASES;
      }
      OrderedCpy(Words(rest), 2 * cnt);
      ChunkSetsRows(old(View()), table, done, cnt);
      if NamesDistinctRegions(table[..count]) {
        DistinctRowsAreHeld(old(View()), table[..count]);
      }
    }
  }

  /** Copying the words of up to four rows sets those rows one after the other. */
  lemma {:induction false} WordsSetRows(s: MpuState, rows: seq<Row>, n: nat)
    requires n <= |rows| && n <= RALIASES
    ensures WriteWords(s, Words(rows)[..2 * n]) == SetEach(s, rows[..n])
  {
    hide Words;
    if n == 0 {
    } else {
      var m := n - 1;
      WordsSetRows(s, rows, m);
      WordsOfNextRow(rows, m);
      WritePair(s, Words(rows)[..2 * m], rows[m]);
      NextRow(s, rows, m);
      hide *;
      assert 2 * n == 2 * m + 2;
    }
  }

  lemma NextRow(s: MpuState, rows: seq<Row>, n: nat)
    requires n < |rows|
    ensures SetEach(s, rows[..n + 1]) == SetEach(s, rows[..n]).SetRegion(rows[n])
  {
    assert rows[..n + 1][..n] == rows[..n];
  }

  lemma WordsOfNextRow(rows: seq<Row>, n: nat)
    requires n < |rows|
    ensures Words(rows)[..2 * n + 2] == Words(rows)[..2 * n] + [rows[n].rbar, rows[n].rasr]
  {
    hide Words;
    var w := Words(rows);
    assert w[2 * n] == rows[n].rbar && w[2 * n + 1] == rows[n].rasr;
  }

  lemma WritePair(s: MpuState, words: seq<nat>, row: Row)
    requires |words| % 2 == 0 && |words| + 2 <= 2 * RALIASES
    ensures WriteWords(s, words + [row.rbar, row.rasr]) == WriteWords(s, words).SetRegion(row)
  {
    var w := words + [row.rbar, row.rasr];
    assert w[..|w| - 1] == words + [row.rbar];
    assert (words + [row.rbar])[..|words|] == words;
  }

  lemma ChunkSetsRows(s: MpuState, table: seq<Row>, done: nat, n: nat)
    requires done + n <= |table| && n <= RALIASES
    ensures WriteWords(SetEach(s, table[..done]), Words(table[done..])[..2 * n]) == SetEach(s, table[..done + n])
  {
    hide Words, WriteWords;
    WordsSetRows(SetEach(s, table[..done]), table[done..], n);
    assert table[done..][..n] == table[done..done + n];
    assert table[..done] + table[done..done + n] == table[..done + n];
    SetEachConcat(s, table[..done], table[done..done + n]);
  }

  lemma {:induction false} SetEachConcat(s: MpuState, a: seq<Row>, b: seq<Row>)
    ensures SetEach(s, a + b) == SetEach(SetEach(s, a), b)
  {
    if b == [] {
      assert a + b == a;
    } else {
      assert (a + b)[..|a + b| - 1] == a + b[..|b| - 1];
      SetEachConcat(s, a, b[..|b| - 1]);
    }
  }

  // ----- What a load leaves in each region -----

  /** The region entry `k` of the table ends up in: the one named by the last VALID entry up to it,
      or the one selected before the load. */
  function Target(selected: nat, table: seq<Row>, k: nat): nat
    requires k < |table|
  {
    if IsValid(table[k].rbar) then RegionField(table[k].rbar)
    else if k == 0 then selected
    else Target(selected, table, k - 1)
  }

  lemma {:induction false} TargetOfPrefix(selected: nat, a: seq<Row>, b: seq<Row>, k: nat)
    requires k < |a|
    ensures Target(selected, a + b, k) == Target(selected, a, k)
  {
    if IsValid(a[k].rbar) || k == 0 {
    } else {
      TargetOfPrefix(selected, a, b, k - 1);
    }
  }

  lemma {:induction false} LoadSelectsLastTarget(s: MpuState, table: seq<Row>)
    ensures SetEach(s, table).rnr == if table == [] then s.rnr else Target(s.rnr, table, |table| - 1)
  {
    if table == [] {
    } else {
      var n := |table| - 1;
      LoadSelectsLastTarget(s, table[..n]);
      if n > 0 {
        assert table == table[..n] + table[n..];
        TargetOfPrefix(s.rnr, table[..n], table[n..], n - 1);
      }
    }
  }

  lemma StepOfLoad(s: MpuState, table: seq<Row>, n: nat)
    requires n + 1 == |table|
    ensures var t, a := SetEach(s, table), SetEach(s, table[..n]);
            var target := Target(s.rnr, table, n);
            && t.Get(target) == Region(AddressField(table[n].rbar), table[n].rasr)
            && forall r: nat :: r != target ==> t.Get(r) == a.Get(r)
    ensures forall k :: 0 <= k < n ==> Target(s.rnr, table, k) == Target(s.rnr, table[..n], k)
  {
    assert table == table[..n] + table[n..];
    LoadSelectsLastTarget(s, table[..n]);
    forall k | 0 <= k < n ensures Target(s.rnr, table, k) == Target(s.rnr, table[..n], k) {
      TargetOfPrefix(s.rnr, table[..n], table[n..], k);
    }
  }

  /** A region holds the last entry that went to it... */
  lemma {:induction false} LastEntryWins(s: MpuState, table: seq<Row>, k: nat)
    requires k < |table|
    requires forall j :: k < j < |table| ==> Target(s.rnr, table, j) != Target(s.rnr, table, k)
    ensures SetEach(s, table).Get(Target(s.rnr, table, k)) == Region(AddressField(table[k].rbar), table[k].rasr)
  {
    var n := |table| - 1;
    StepOfLoad(s, table, n);
    if k == n {
    } else {
      LastEntryWins(s, table[..n], k);
    }
  }

  /** ... and a region no entry went to is unchanged. */
  lemma {:induction false} OtherRegionsUnchanged(s: MpuState, table: seq<Row>, r: nat)
    requires forall k :: 0 <= k < |table| ==> Target(s.rnr, table, k) != r
    ensures SetEach(s, table).Get(r) == s.Get(r)
  {
    if table == [] {
    } else {
      var n := |table| - 1;
      StepOfLoad(s, table, n);
      OtherRegionsUnchanged(s, table[..n], r);
    }
  }

  /** Every entry has its VALID bit set, and no two name the same region. */
  ghost predicate NamesDistinctRegions(table: seq<Row>) {
    && (forall k :: 0 <= k < |table| ==> table[k].rbar % 32 >= 16)
    && forall j, k :: 0 <= j < k < |table| ==> table[j].rbar % 16 != table[k].rbar % 16
  }

  /** Each region named by an entry has its base address and attributes, the others are as before. */
  ghost predicate HoldsTable(before: MpuState, after: MpuState, table: seq<Row>) {
    && (forall k :: 0 <= k < |table| ==>
          && 32 * after.Get(table[k].rbar % 16).address == table[k].rbar - table[k].rbar % 32
          && after.Get(table[k].rbar % 16).attributes == table[k].rasr)
    && forall r: nat :: (forall k :: 0 <= k < |table| ==> table[k].rbar % 16 != r) ==> after.Get(r) == before.Get(r)
  }

  lemma DistinctRowsAreHeld(s: MpuState, table: seq<Row>)
    requires NamesDistinctRegions(table)
    ensures HoldsTable(s, SetEach(s, table), table)
  {
    hide SetEach;
    forall k | 0 <= k < |table| ensures Target(s.rnr, table, k) == table[k].rbar % 16 {
      FieldsMakeUpRbar(table[k].rbar);
    }
    hide Target;
    forall k | 0 <= k < |table|
      ensures SetEach(s, table).Get(table[k].rbar % 16) == Region(AddressField(table[k].rbar), table[k].rasr)
    {
      LastEntryWins(s, table, k);
    }
    forall k | 0 <= k < |table| ensures 32 * AddressField(table[k].rbar) == table[k].rbar - table[k].rbar % 32 {
      FieldsMakeUpRbar(table[k].rbar);
    }
    forall r: nat | forall k :: 0 <= k < |table| ==> table[k].rbar % 16 != r
      ensures SetEach(s, table).Get(r) == s.Get(r)
    {
      OtherRegionsUnchanged(s, table, r);
    }
  }

  /** With VALID set in every entry, each entry goes to the region it names, whatever was selected
      before; without VALID anywhere, they all overwrite the one selected region. */
  lemma {:induction false} TargetsOfUniformTables(selected: nat, table: seq<Row>, k: nat)
    requires k < |table|
    ensures (forall i :: 0 <= i < |table| ==> IsValid(table[i].rbar)) ==>
              Target(selected, table, k) == RegionField(table[k].rbar)
    ensures (forall i :: 0 <= i < |table| ==> !IsValid(table[i].rbar)) ==> Target(selected, table, k) == selected
  {
    if k == 0 {
    } else {
      TargetsOfUniformTables(selected, table, k - 1);
    }
  }

  // ----- When the region selected before the load does not matter -----

  /** Implemented regions: the REGION field of RBAR has four bits. */
  const MAX_REGIONS := 16

  ghost predicate SameRegisters(s: MpuState, t: MpuState) {
    s.rnr == t.rnr && forall r: nat :: s.Get(r) == t.Get(r)
  }

  /** On a device with `n` regions, whatever they hold, the load leaves the same registers whichever
      of them was selected before. */
  ghost predicate Independent(n: nat, table: seq<Row>) {
    forall p: nat, q: nat, m: map<nat, Region> ::
      p < n && q < n && (forall r :: r in m ==> r < n) ==>
        SameRegisters(SetEach(MpuState(p, m), table), SetEach(MpuState(q, m), table))
  }

  /** The number of entries before the first VALID one. */
  function FirstValid(table: seq<Row>): (v: nat)
    ensures v <= |table| && (v < |table| ==> IsValid(table[v].rbar))
    ensures forall i :: 0 <= i < v ==> !IsValid(table[i].rbar)
  {
    if table == [] || IsValid(table[0].rbar) then 0 else 1 + FirstValid(table[1..])
  }

  /** Some entry of a table that starts with a VALID one goes to region `r`. */
  ghost predicate Names(table: seq<Row>, r: nat) {
    exists k :: 0 <= k < |table| && Target(0, table, k) == r
  }

  /** With two to sixteen regions, the selection made before a load is of no consequence exactly
      when the first entry is VALID, or the entries from the first VALID one on go to every region
      of the device. */
  lemma IndependentOfSelectionIff(n: nat, table: seq<Row>)
    requires 2 <= n <= MAX_REGIONS
    ensures Independent(n, table) <==>
              var v := FirstValid(table);
              v < |table| && (v == 0 || forall r :: 0 <= r < n ==> Names(table[v..], r))
  {
    hide SetEach, SameRegisters, Names;
    var v := FirstValid(table);
    if v < |table| && (v == 0 || forall r :: 0 <= r < n ==> Names(table[v..], r)) {
      forall p: nat, q: nat, m: map<nat, Region> | p < n && q < n
        ensures SameRegisters(SetEach(MpuState(p, m), table), SetEach(MpuState(q, m), table))
      {
        CoveredTableForgets(n, table, v, p, q, m);
      }
    } else if v == |table| {
      NoValidRemembers(0, 1, table);
    } else {
      var r: nat :| r < n && !Names(table[v..], r);
      UncoveredTableRemembers(table, v, r, if r == 0 then 1 else 0);
    }
  }

  lemma {:induction false} TargetFromValid(selected: nat, table: seq<Row>, k: nat)
    requires k < |table| && IsValid(table[0].rbar)
    ensures Target(selected, table, k) == Target(0, table, k)
  {
    if k == 0 {
    } else {
      TargetFromValid(selected, table, k - 1);
    }
  }

  /** A table that starts with a VALID entry overwrites the regions it names and nothing else. */
  lemma LoadFromValid(s: MpuState, t: MpuState, table: seq<Row>, r: nat)
    requires table != [] && IsValid(table[0].rbar)
    ensures SetEach(s, table).rnr == SetEach(t, table).rnr
    ensures if Names(table, r) then SetEach(s, table).Get(r) == SetEach(t, table).Get(r)
            else SetEach(s, table).Get(r) == s.Get(r) && SetEach(t, table).Get(r) == t.Get(r)
  {
    forall k | 0 <= k < |table|
      ensures Target(s.rnr, table, k) == Target(0, table, k) == Target(t.rnr, table, k)
    {
      TargetFromValid(s.rnr, table, k);
      TargetFromValid(t.rnr, table, k);
    }
    LoadSelectsLastTarget(s, table);
    LoadSelectsLastTarget(t, table);
    if Names(table, r) {
      var k := LastNaming(table, r, |table|);
      LastEntryWins(s, table, k);
      LastEntryWins(t, table, k);
    } else {
      OtherRegionsUnchanged(s, table, r);
      OtherRegionsUnchanged(t, table, r);
    }
  }

  lemma {:induction false} LastNaming(table: seq<Row>, r: nat, n: nat) returns (k: nat)
    requires n <= |table| && exists k :: 0 <= k < n && Target(0, table, k) == r
    ensures k < n && Target(0, table, k) == r
    ensures forall j :: k < j < n ==> Target(0, table, j) != r
  {
    if Target(0, table, n - 1) == r {
      k := n - 1;
    } else {
      k := LastNaming(table, r, n - 1);
    }
  }

  /** The part before the first VALID entry writes to the selected region only. */
  lemma PrefixWritesSelected(p: nat, m: map<nat, Region>, table: seq<Row>, v: nat)
    requires v <= |table| && forall i :: 0 <= i < v ==> !IsValid(table[i].rbar)
    ensures var s := SetEach(MpuState(p, m), table[..v]);
            && (forall r: nat :: r != p ==> s.Get(r) == MpuState(p, m).Get(r))
            && (v > 0 ==> s.Get(p) == Region(AddressField(table[v - 1].rbar), table[v - 1].rasr))
            && SetEach(MpuState(p, m), table) == SetEach(s, table[v..])
  {
    var s, a := MpuState(p, m), table[..v];
    assert table == a + table[v..];
    SetEachConcat(s, a, table[v..]);
    forall k | 0 <= k < v ensures Target(p, a, k) == p {
      TargetsOfUniformTables(p, a, k);
    }
    forall r: nat | r != p ensures SetEach(s, a).Get(r) == s.Get(r) {
      OtherRegionsUnchanged(s, a, r);
    }
    if v > 0 {
      LastEntryWins(s, a, v - 1);
    }
  }

  lemma CoveredTableForgets(n: nat, table: seq<Row>, v: nat, p: nat, q: nat, m: map<nat, Region>)
    requires v == FirstValid(table) < |table| && p < n && q < n
    requires v == 0 || forall r :: 0 <= r < n ==> Names(table[v..], r)
    ensures SameRegisters(SetEach(MpuState(p, m), table), SetEach(MpuState(q, m), table))
  {
    PrefixWritesSelected(p, m, table, v);
    PrefixWritesSelected(q, m, table, v);
    var s, t := SetEach(MpuState(p, m), table[..v]), SetEach(MpuState(q, m), table[..v]);
    forall r: nat ensures SetEach(s, table[v..]).Get(r) == SetEach(t, table[v..]).Get(r) {
      LoadFromValid(s, t, table[v..], r);
      if v == 0 {
        assert table[..v] == [];
      }
    }
    LoadFromValid(s, t, table[v..], 0);
  }

  lemma NoValidRemembers(p: nat, q: nat, table: seq<Row>)
    requires FirstValid(table) == |table| && p != q
    ensures !SameRegisters(SetEach(MpuState(p, map[]), table), SetEach(MpuState(q, map[]), table))
  {
    LoadSelectsLastTarget(MpuState(p, map[]), table);
    LoadSelectsLastTarget(MpuState(q, map[]), table);
    if table != [] {
      TargetsOfUniformTables(p, table, |table| - 1);
      TargetsOfUniformTables(q, table, |table| - 1);
    }
  }

  function OtherAttributes(row: Row): nat {
    if row.rasr == 0 then 1 else 0
  }

  /** Region `r` shows whether it was the one selected: the entries before the first VALID one go
      to it or they do not. */
  lemma UncoveredTableRemembers(table: seq<Row>, v: nat, r: nat, q: nat)
    requires 0 < v == FirstValid(table) < |table| && !Names(table[v..], r) && q != r
    ensures var m := map[r := Region(0, OtherAttributes(table[v - 1]))];
            !SameRegisters(SetEach(MpuState(r, m), table), SetEach(MpuState(q, m), table))
  {
    var m := map[r := Region(0, OtherAttributes(table[v - 1]))];
    PrefixWritesSelected(r, m, table, v);
    PrefixWritesSelected(q, m, table, v);
    LoadFromValid(SetEach(MpuState(r, m), table[..v]), SetEach(MpuState(q, m), table[..v]), table[v..], r);
  }

  /** One entry for the selected region and then one for each region of the device. */
  function FullTable(n: nat): seq<Row> {
    [Row(0, 7)] + seq(n, r requires 0 <= r => Row(16 + r, r))
  }

  /** A table can be independent of the selection although its first entry is not VALID. */
  lemma FullTableIsIndependent(n: nat)
    requires 2 <= n <= MAX_REGIONS
    ensures !IsValid(FullTable(n)[0].rbar) && Independent(n, FullTable(n))
  {
    var t := FullTable(n);
    var u := t[1..];
    assert FirstValid(t) == 1 by {
      assert !IsValid(t[0].rbar) && IsValid(t[1].rbar);
    }
    forall r | 0 <= r < n ensures Names(u, r) {
      assert u[r] == Row(16 + r, r);
      assert Target(0, u, r) == r;
    }
    IndependentOfSelectionIff(n, t);
  }
}
