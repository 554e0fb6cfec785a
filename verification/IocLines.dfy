/**
 What the lines of an ioconf file mean: a table with one entry for each block major, each with a
 configuration that several majors may share.  Configurations are numbered in the order of the
 records that make them.
 */
module IocLines {
  import opened Common
  import opened IocName

  const MAX_BLKDEV: nat := 255

  /** A parsed line.  Indirect records name another major, full records carry their own configuration. */
  datatype Line =
    | Comment
    | Malformed
    | Indirect(major: U32, indirect: U32, ctrl: U32, desc: Option<string>)
    | Full(major: U32, record: Record)
  {
    /** The parser does not check the major of an indirect record; a usable file keeps it in range. */
    predicate InRange() {
      (Indirect? ==> major < MAX_BLKDEV) && (Full? ==> record.WellFormed())
    }

    /** A record that adds an exception to a configuration that is already there. */
    predicate Exception() {
      Full? && record.cfmt != "" && record.cfmt[0] == 'x'
    }
  }

  predicate AllInRange(lines: seq<Line>) {
    forall i :: 0 <= i < |lines| ==> lines[i].InRange()
  }

  /** A description: none, a text of its own, or the one of the configuration. */
  datatype Text = NoText | OwnText(text: string) | SharedText

  datatype Entry = Entry(live: bool, ctrlno: U32, text: Text, config: Option<nat>)

  /** The entries by major, the configurations, and the major each configuration was made for. */
  datatype Table = Table(entries: map<nat, Entry>, configs: seq<Config>, homes: seq<nat>)

  const EMPTY := Table(map[], [], [])

  /** Whether a line stores an entry. */
  predicate Stores(l: Line, t: Table) {
    match l
    case Comment => false
    case Malformed => false
    case Indirect(_, indirect, _, _) => indirect != 0 && indirect < MAX_BLKDEV && indirect in t.entries
    case Full(major, _) => 0 < major < MAX_BLKDEV && !l.Exception()
  }

  /** Whether a line is an exception record for a configuration; if so, for which. */
  function Addressee(l: Line, t: Table): (k: Option<nat>) {
    if l.Exception() && 0 < l.major < MAX_BLKDEV && l.major in t.entries then t.entries[l.major].config else None
  }

  /** Only the first exception is kept. */
  function WithException(c: Config, minor: U32, name: string): (c': Config) {
    if c.ext == None then c.(ext := Some((minor, name))) else c
  }

  /** The entry a line stores.  An indirect record for its own major has lost the configuration it looks for. */
  function NewEntry(l: Line, t: Table): (e: Entry)
    requires Stores(l, t)
  {
    match l
    case Indirect(major, indirect, ctrl, desc) =>
      Entry(false, ctrl, if desc == None then SharedText else OwnText(Clip(desc.value)),
            if major == indirect then None else t.entries[indirect].config)
    case Full(_, r) => Entry(true, r.ctrlno, NoText, Some(|t.configs|))
  }

  function Step(t: Table, l: Line): (t': Table)
    requires l.InRange()
  {
    if Stores(l, t) then
      var entries := t.entries[l.major := NewEntry(l, t)];
      if l.Full? then Table(entries, t.configs + [Cook(l.record)], t.homes + [l.major]) else t.(entries := entries)
    else
      var k := Addressee(l, t);
      if k.Some? && k.value < |t.configs| then
        t.(configs := t.configs[k.value := WithException(t.configs[k.value], l.record.ctrlno, l.record.name)])
      else t
  }

  /** The table after the lines of a file. */
  function After(lines: seq<Line>): (t: Table)
    requires AllInRange(lines)
  {
    var n := |lines| - 1;
    if n < 0 then EMPTY else Step(After(lines[..n]), lines[n])
  }

  lemma OneMore(lines: seq<Line>, n: nat)
    requires AllInRange(lines) && n < |lines|
    ensures AllInRange(lines[..n]) && AllInRange(lines[..n + 1])
    ensures After(lines[..n + 1]) == Step(After(lines[..n]), lines[n])
  {
    assert lines[..n + 1][..n] == lines[..n];
  }

  // ---------- What every line keeps ----------

  ghost predicate EntryOk(t: Table, m: nat) {
    m in t.entries ==>
      var e := t.entries[m];
      && m < MAX_BLKDEV && (e.live <==> e.text == NoText)
      && (e.config.Some? ==> e.config.value < |t.configs| == |t.homes|)
      && (e.live ==> e.config.Some? && t.homes[e.config.value] == m)
  }

  ghost predicate Ok(t: Table) {
    |t.homes| == |t.configs| && forall m {:trigger EntryOk(t, m)} :: EntryOk(t, m)
  }

  lemma StepOk(t: Table, l: Line)
    requires Ok(t) && l.InRange()
    ensures Ok(Step(t, l))
  {
    var t' := Step(t, l);
    forall m
      ensures EntryOk(t', m)
    {
      assert EntryOk(t, m);
      if l.Indirect? {
        assert EntryOk(t, l.indirect);
      }
    }
  }

  lemma {:induction false} AfterOk(lines: seq<Line>)
    requires AllInRange(lines)
    ensures Ok(After(lines))
  {
    var n := |lines| - 1;
    if n >= 0 {
      AfterOk(lines[..n]);
      StepOk(After(lines[..n]), lines[n]);
    } else {
      forall m
        ensures EntryOk(EMPTY, m)
      {
      }
    }
  }

  /** The name of a device according to the table. */
  function Answered(t: Table, major: U32, minor: U32): (a: Answer) {
    if major >= MAX_BLKDEV || minor >= IOC_MAXMINOR then NoAnswer
    else if major !in t.entries then Named("nodev")
    else
      var e := t.entries[major];
      if e.config.Some? && e.config.value < |t.configs| then NameFor(t.configs[e.config.value], e.ctrlno, minor)
      else Undefined
  }

  // ---------- Entries without a configuration ----------

  /** An indirect record that refers to its own, already known, major. */
  predicate SelfReference(l: Line, t: Table) {
    l.Indirect? && Stores(l, t) && l.major == l.indirect
  }

  predicate Configured(t: Table) {
    forall m :: m in t.entries ==> t.entries[m].config.Some?
  }

  predicate NoSelfReference(lines: seq<Line>)
    requires AllInRange(lines)
  {
    forall i :: 0 <= i < |lines| ==> !SelfReference(lines[i], After(lines[..i]))
  }

  lemma StepConfigured(t: Table, l: Line)
    requires Configured(t) && l.InRange()
    ensures Configured(Step(t, l)) <==> !SelfReference(l, t)
  {
    var t' := Step(t, l);
    if SelfReference(l, t) {
      assert l.major in t'.entries && t'.entries[l.major].config == None;
    }
  }

  lemma {:induction false} ConfiguredAfter(lines: seq<Line>, n: nat)
    requires AllInRange(lines) && n <= |lines|
    requires forall i :: 0 <= i < n ==> !SelfReference(lines[i], After(lines[..i]))
    ensures Configured(After(lines[..n]))
  {
    if n > 0 {
      ConfiguredAfter(lines, n - 1);
      OneMore(lines, n - 1);
      StepConfigured(After(lines[..n - 1]), lines[n - 1]);
    }
  }

  /** Every entry has a configuration all along if and only if no line refers to its own known major. */
  lemma ConfiguredIff(lines: seq<Line>)
    requires AllInRange(lines)
    ensures (forall n :: 0 <= n <= |lines| ==> Configured(After(lines[..n]))) <==> NoSelfReference(lines)
  {
    if NoSelfReference(lines) {
      forall n | 0 <= n <= |lines|
        ensures Configured(After(lines[..n]))
      {
        ConfiguredAfter(lines, n);
      }
    }
    if forall n :: 0 <= n <= |lines| ==> Configured(After(lines[..n])) {
      forall i | 0 <= i < |lines|
        ensures !SelfReference(lines[i], After(lines[..i]))
      {
        OneMore(lines, i);
        assert Configured(After(lines[..i])) && Configured(After(lines[..i + 1]));
        StepConfigured(After(lines[..i]), lines[i]);
      }
    }
  }

  /** Two lines after which a major has no configuration. */
  lemma SelfReferenceLosesConfig(r: Record)
    requires r.WellFormed() && r.cfmt[0] != 'x'
    ensures var t := After([Full(8, r), Indirect(8, 8, 1, None)]);
            8 in t.entries && t.entries[8].config == None
  {
    var lines := [Full(8, r), Indirect(8, 8, 1, None)];
    OneMore(lines, 0);
    OneMore(lines, 1);
    assert lines[..2] == lines && lines[..0] == [];
  }

  // ---------- Where entries and configurations come from ----------

  predicate StoresAt(lines: seq<Line>, j: nat)
    requires AllInRange(lines)
  {
    j < |lines| && Stores(lines[j], After(lines[..j]))
  }

  /** The last line that stores an entry for a major. */
  function LastStore(lines: seq<Line>, m: nat): (j: Option<nat>)
    requires AllInRange(lines)
    ensures j.Some? ==> j.value < |lines|
  {
    var n := |lines| - 1;
    if n < 0 then None
    else if Stores(lines[n], After(lines[..n])) && lines[n].major == m then Some(n)
    else LastStore(lines[..n], m)
  }

  lemma StoresAtPrefix(lines: seq<Line>, n: nat, i: nat)
    requires AllInRange(lines) && i < n <= |lines|
    ensures StoresAt(lines[..n], i) <==> StoresAt(lines, i)
  {
    assert lines[..n][..i] == lines[..i];
  }

  lemma {:induction false} LastStoreStores(lines: seq<Line>, m: nat)
    requires AllInRange(lines) && LastStore(lines, m).Some?
    ensures var j := LastStore(lines, m).value;
            StoresAt(lines, j) && lines[j].major == m
  {
    var n, j := |lines| - 1, LastStore(lines, m).value;
    if j < n {
      LastStoreStores(lines[..n], m);
      StoresAtPrefix(lines, n, j);
    }
  }

  lemma {:induction false} NoLaterStore(lines: seq<Line>, m: nat, i: nat)
    requires AllInRange(lines) && StoresAt(lines, i) && lines[i].major == m
    ensures LastStore(lines, m).Some? && i <= LastStore(lines, m).value
  {
    var n := |lines| - 1;
    if i < n {
      StoresAtPrefix(lines, n, i);
      NoLaterStore(lines[..n], m, i);
    }
  }

  lemma LastStoreIsLast(lines: seq<Line>, m: nat, j: nat)
    requires AllInRange(lines)
    ensures LastStore(lines, m) == Some(j)
            <==> StoresAt(lines, j) && lines[j].major == m
                 && forall i :: j < i < |lines| && StoresAt(lines, i) ==> lines[i].major != m
  {
    if LastStore(lines, m) == Some(j) {
      LastStoreStores(lines, m);
      forall i | j < i < |lines| && StoresAt(lines, i)
        ensures lines[i].major != m
      {
        if lines[i].major == m {
          NoLaterStore(lines, m, i);
        }
      }
    }
    if StoresAt(lines, j) && lines[j].major == m {
      NoLaterStore(lines, m, j);
      LastStoreStores(lines, m);
    }
  }

  /** The entry of a major is the one stored by the last line that stores one for it. */
  lemma {:induction false} EntryFromLastStore(lines: seq<Line>, m: nat)
    requires AllInRange(lines)
    ensures m in After(lines).entries <==> LastStore(lines, m).Some?
    ensures m in After(lines).entries ==>
              var j := LastStore(lines, m).value;
              && Stores(lines[j], After(lines[..j]))
              && After(lines).entries[m] == NewEntry(lines[j], After(lines[..j]))
  {
    var n := |lines| - 1;
    if n >= 0 {
      var init := lines[..n];
      EntryFromLastStore(init, m);
      var j := LastStore(init, m);
      if j.Some? {
        assert init[..j.value] == lines[..j.value];
      }
    }
  }

  /** The line whose record made configuration k. */
  function MadeAt(lines: seq<Line>, k: nat): (i: nat)
    requires AllInRange(lines) && k < |After(lines).configs|
    ensures i < |lines|
  {
    var n := |lines| - 1;
    if k < |After(lines[..n]).configs| then MadeAt(lines[..n], k) else n
  }

  /** What a configuration has from its line. */
  lemma {:induction false} MadeFrom(lines: seq<Line>, k: nat)
    requires AllInRange(lines) && k < |After(lines).configs|
    ensures var made := lines[MadeAt(lines, k)];
            && made.Full? && |After(lines).homes| == |After(lines).configs| && After(lines).homes[k] == made.major
            && After(lines).configs[k].(ext := None) == Cook(made.record)
  {
    AfterOk(lines);
    var init := lines[..|lines| - 1];
    AfterOk(init);
    if k < |After(init).configs| {
      MadeFrom(init, k);
    }
  }

  /** The line that made a configuration is the only one that did. */
  lemma {:induction false} MadeAtIff(lines: seq<Line>, k: nat, i: nat)
    requires AllInRange(lines) && k < |After(lines).configs|
    ensures MadeAt(lines, k) == i
            <==> && i < |lines| && Stores(lines[i], After(lines[..i])) && lines[i].Full?
                 && |After(lines[..i]).configs| == k
  {
    var n := |lines| - 1;
    var init := lines[..n];
    if k < |After(init).configs| {
      MadeAtIff(init, k, i);
      if i < n {
        assert init[..i] == lines[..i];
      }
    } else {
      if i < n {
        ConfigsGrow(lines, i, n);
      }
    }
  }

  /** Each configuration is made by one line, and keeps what it has from there. */
  lemma MadeAtLine(lines: seq<Line>, k: nat, i: nat)
    requires AllInRange(lines) && k < |After(lines).configs|
    ensures MadeAt(lines, k) == i
            <==> && i < |lines| && Stores(lines[i], After(lines[..i])) && lines[i].Full?
                 && |After(lines[..i]).configs| == k
    ensures var made := lines[MadeAt(lines, k)];
            && made.Full? && |After(lines).homes| == |After(lines).configs| && After(lines).homes[k] == made.major
            && After(lines).configs[k].(ext := None) == Cook(made.record)
  {
    MadeAtIff(lines, k, i);
    MadeFrom(lines, k);
  }

  lemma {:induction false} ConfigsGrow(lines: seq<Line>, j: nat, n: nat)
    requires AllInRange(lines) && j < n <= |lines|
    ensures |After(lines[..j]).configs| + (if Stores(lines[j], After(lines[..j])) && lines[j].Full? then 1 else 0)
            <= |After(lines[..n]).configs|
    decreases n - j
  {
    OneMore(lines, j);
    if j + 1 < n {
      ConfigsGrow(lines, j + 1, n);
    }
  }

  // ---------- Exceptions ----------

  /** The exception records addressed to configuration k, in the order of the file. */
  function Addressed(lines: seq<Line>, k: nat): (es: seq<(U32, string)>)
    requires AllInRange(lines)
  {
    var n := |lines| - 1;
    if n < 0 then []
    else
      Addressed(lines[..n], k)
      + if Addressee(lines[n], After(lines[..n])) == Some(k) then [(lines[n].record.ctrlno, lines[n].record.name)]
        else []
  }

  /** A configuration has at most one exception: the first of those addressed to any major that shares it. */
  lemma {:induction false} FirstException(lines: seq<Line>, k: nat)
    requires AllInRange(lines)
    ensures k >= |After(lines).configs| ==> Addressed(lines, k) == []
    ensures k < |After(lines).configs| ==>
              After(lines).configs[k].ext == if Addressed(lines, k) == [] then None else Some(Addressed(lines, k)[0])
  {
    var n := |lines| - 1;
    if n >= 0 {
      var init, l := lines[..n], lines[n];
      AfterOk(init);
      FirstException(init, k);
      if l.Exception() && l.major in After(init).entries {
        assert EntryOk(After(init), l.major);
      }
    }
  }

  // ---------- Who owns which configuration ----------

  /** A live entry has configuration k. */
  ghost predicate HasOwner(t: Table, k: nat) {
    exists m :: m in t.entries && t.entries[m].live && t.entries[m].config == Some(k)
  }

  /** Every configuration in use is owned by a live entry. */
  ghost predicate Owned(t: Table) {
    forall m :: m in t.entries && t.entries[m].config.Some? ==> HasOwner(t, t.entries[m].config.value)
  }

  /** Only the entry of the major it was made for can own a configuration. */
  lemma OwnerAtHome(t: Table, k: nat)
    requires Ok(t) && k < |t.configs|
    ensures var m := t.homes[k];
            HasOwner(t, k) <==> m in t.entries && t.entries[m].live && t.entries[m].config == Some(k)
  {
    if HasOwner(t, k) {
      var m :| m in t.entries && t.entries[m].live && t.entries[m].config == Some(k);
      assert EntryOk(t, m);
    }
  }

  /** A configuration has an owner as long as no later line stores an entry for the major of the line that made it. */
  lemma OwnerIff(lines: seq<Line>, k: nat)
    requires AllInRange(lines) && k < |After(lines).configs|
    ensures var i := MadeAt(lines, k);
            lines[i].Full? && (HasOwner(After(lines), k) <==> LastStore(lines, lines[i].major) == Some(i))
  {
    AfterOk(lines);
    OwnerAtHome(After(lines), k);
    var i := MadeAt(lines, k);
    MadeAtLine(lines, k, i);
    var m := lines[i].major;
    EntryFromLastStore(lines, m);
    var j := LastStore(lines, m);
    if j.Some? {
      MadeAtLine(lines, k, j.value);
    }
  }

  /** A later line stores an entry for the major of the line that made configuration k. */
  predicate Superseded(lines: seq<Line>, k: nat)
    requires AllInRange(lines)
  {
    k < |After(lines).configs| &&
    var i := MadeAt(lines, k);
    exists j :: i < j < |lines| && StoresAt(lines, j) && lines[i].Full? && lines[j].major == lines[i].major
  }

  lemma SupersededIff(lines: seq<Line>, k: nat)
    requires AllInRange(lines) && k < |After(lines).configs|
    ensures HasOwner(After(lines), k) <==> !Superseded(lines, k)
  {
    OwnerIff(lines, k);
    var i := MadeAt(lines, k);
    MadeAtLine(lines, k, i);
    LastStoreIsLast(lines, lines[i].major, i);
  }

  /**
   When every configuration in use has an owner after a file: if for each entry the line that made
   its configuration is still the last that stores an entry for its own major.
   */
  lemma OwnedIff(lines: seq<Line>)
    requires AllInRange(lines)
    ensures Owned(After(lines))
            <==> forall m :: m in After(lines).entries && After(lines).entries[m].config.Some? ==> InPlace(lines, m)
  {
    AfterOk(lines);
    forall m | m in After(lines).entries && After(lines).entries[m].config.Some?
      ensures HasOwner(After(lines), After(lines).entries[m].config.value) <==> InPlace(lines, m)
    {
      assert EntryOk(After(lines), m);
      OwnerIff(lines, After(lines).entries[m].config.value);
    }
  }

  /** No later line has taken the place of the one that made the configuration of major m. */
  ghost predicate InPlace(lines: seq<Line>, m: nat)
    requires AllInRange(lines) && m in After(lines).entries && After(lines).entries[m].config.Some?
  {
    var k := After(lines).entries[m].config.value;
    k < |After(lines).configs| &&
    var i := MadeAt(lines, k);
    lines[i].Full? && LastStore(lines, lines[i].major) == Some(i)
  }

  lemma SharedThenRedefined(r: Record)
    requires r.WellFormed() && r.cfmt[0] != 'x'
    ensures var t := After([Full(8, r), Indirect(65, 8, 1, None), Full(8, r)]);
            && t.entries == map[8 := Entry(true, r.ctrlno, NoText, Some(1)), 65 := Entry(false, 1, SharedText, Some(0))]
            && |t.configs| == 2
  {
    var lines := [Full(8, r), Indirect(65, 8, 1, None), Full(8, r)];
    OneMore(lines, 0);
    OneMore(lines, 1);
    OneMore(lines, 2);
    assert lines[..0] == [] && lines[..3] == lines;
  }

  /** Three lines after which a configuration in use has no owner, and a fourth that makes good for it. */
  lemma RedefinedMajorStrands(r: Record)
    requires r.WellFormed() && r.cfmt[0] != 'x'
    ensures var lines := [Full(8, r), Indirect(65, 8, 1, None), Full(8, r), Indirect(65, 8, 1, None)];
            && !Owned(After(lines[..3])) && Owned(After(lines))
  {
    var lines := [Full(8, r), Indirect(65, 8, 1, None), Full(8, r), Indirect(65, 8, 1, None)];
    SharedThenRedefined(r);
    OneMore(lines, 3);
    assert lines[..3] == [Full(8, r), Indirect(65, 8, 1, None), Full(8, r)] && lines[..4] == lines;
    var t3, t := After(lines[..3]), After(lines);
    assert !HasOwner(t3, 0) && 65 in t3.entries;
    assert t.entries[8] == Entry(true, r.ctrlno, NoText, Some(1)) && t.entries[65].config == Some(1);
    assert HasOwner(t, 1);
  }

  // ---------- What a table keeps in memory ----------

  /** The blocks of memory that go with an entry: itself, and a configuration or a description of its own. */
  function Weight(e: Entry): (w: nat) {
    if e.live || e.text.OwnText? then 2 else 1
  }

  /** The blocks that go with the entries of the majors below n. */
  function Kept(t: Table, n: nat): (w: nat)
    decreases |t.homes|, n
  {
    if n == 0 then 0 else Kept(t, n - 1) + if n - 1 in t.entries then Weight(t.entries[n - 1]) else 0
  }

  lemma {:induction false} NoneKept(n: nat)
    ensures Kept(EMPTY, n) == 0
  {
    if n > 0 {
      NoneKept(n - 1);
    }
  }

  /** The blocks that go into the table with a line. */
  function Stored(l: Line, t: Table): (w: nat) {
    if Stores(l, t) then Weight(NewEntry(l, t)) else 0
  }

  /** The blocks that cannot be reached from the table any more: a line has stored another entry for their major. */
  function Stranded(lines: seq<Line>): (w: nat)
    requires AllInRange(lines)
  {
    var n := |lines| - 1;
    if n < 0 then 0
    else
      var t, l := After(lines[..n]), lines[n];
      Stranded(lines[..n]) + if Stores(l, t) && l.major in t.entries then Weight(t.entries[l.major]) else 0
  }

  lemma {:induction false} KeptStep(t: Table, l: Line, n: nat)
    requires l.InRange()
    ensures var gone := if Stores(l, t) && l.major in t.entries then Weight(t.entries[l.major]) else 0;
            Kept(Step(t, l), n) == Kept(t, n) + if Stores(l, t) && l.major < n then Stored(l, t) - gone else 0
  {
    if n > 0 {
      KeptStep(t, l, n - 1);
    }
  }

  /** What a line adds is kept, or has taken the place of what is stranded. */
  lemma KeptOrStranded(lines: seq<Line>, n: nat)
    requires AllInRange(lines) && n < |lines|
    ensures Kept(After(lines[..n + 1]), MAX_BLKDEV) + Stranded(lines[..n + 1])
            == Kept(After(lines[..n]), MAX_BLKDEV) + Stranded(lines[..n]) + Stored(lines[n], After(lines[..n]))
  {
    OneMore(lines, n);
    KeptStep(After(lines[..n]), lines[n], MAX_BLKDEV);
    assert lines[..n + 1][..n] == lines[..n];
  }

  /** No line stores an entry for a major that an earlier line has stored one for. */
  predicate EachMajorOnce(lines: seq<Line>)
    requires AllInRange(lines)
  {
    forall i, j :: 0 <= i < j < |lines| && StoresAt(lines, i) && StoresAt(lines, j) ==> lines[i].major != lines[j].major
  }

  lemma OnceMore(lines: seq<Line>, n: nat)
    requires AllInRange(lines) && n == |lines| - 1
    ensures EachMajorOnce(lines)
            <==> EachMajorOnce(lines[..n])
                 && !(StoresAt(lines, n) && LastStore(lines[..n], lines[n].major).Some?)
  {
    var init := lines[..n];
    forall i: nat | i < n
      ensures StoresAt(init, i) <==> StoresAt(lines, i)
    {
      StoresAtPrefix(lines, n, i);
    }
    if StoresAt(lines, n) {
      var m := lines[n].major;
      if LastStore(init, m).Some? {
        LastStoreStores(init, m);
      } else {
        forall i: nat | i < n && StoresAt(init, i)
          ensures init[i].major != m
        {
          if init[i].major == m {
            NoLaterStore(init, m, i);
          }
        }
      }
    }
  }

  /** Nothing is stranded if and only if no major is stored twice. */
  lemma {:induction false} StrandedIff(lines: seq<Line>)
    requires AllInRange(lines)
    ensures Stranded(lines) == 0 <==> EachMajorOnce(lines)
  {
    var n := |lines| - 1;
    if n >= 0 {
      StrandedIff(lines[..n]);
      OnceMore(lines, n);
      if StoresAt(lines, n) {
        EntryFromLastStore(lines[..n], lines[n].major);
      }
    }
  }
}
