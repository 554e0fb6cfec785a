/**
 The data collector sadc: the globals of the program are the fields of a class, the files and
 standard output are bytes.  Every method is the step of the machine of SadcModel it stands for.
 */
module Sadc {
  import opened Common
  import opened Bits
  import opened SaFile
  import opened SadcModel

  lemma FromTheLeft(a: seq<U8>, b: seq<U8>, c: seq<U8>, d: seq<U8>, e: seq<U8>, f: seq<U8>, g: seq<U8>)
    ensures a + b + c + d + e + f + g == a + (b + (c + (d + (e + (f + g)))))
  {
    assert a + b + c + d == a + (b + (c + d));
    var r := e + (f + g);
    assert a + b + c + d + e + f + g == (a + b + c + d) + r;
    assert (a + (b + (c + d))) + r == a + (b + (c + (d + r)));
  }

  /** The parts of a record, written one after the other. */
  lemma RecordFromTheLeft(c: Counts, stats: seq<U8>, mem: Memory)
    ensures var l := WriterLayout(c);
            stats + Buffer(mem.cpu, l.cpu) + Buffer(mem.irq, l.irq) + Buffer(mem.serial, l.serial)
            + Buffer(mem.irqcpu, l.irqcpu) + Buffer(mem.iface, l.iface) + Buffer(mem.disk, l.disk)
            == Encode(StatsRecord(c, stats, mem))
  {
    var m := StatsRecord(c, stats, mem).more;
    FromTheLeft(stats, m.cpu, m.irq, m.serial, m.irqcpu, m.iface, m.disk);
  }

  // ---------- The files ----------

  lemma PutBack<K, V>(m: map<K, V>, k: K, v: V)
    ensures (m - {k})[k := v] == m[k := v]
  {
  }

  lemma TakeAway<K, V>(m: map<K, V>, k: K, v: V)
    ensures m[k := v] - {k} == m - {k}
  {
  }

  lemma SameBut<K, V>(m: map<K, V>, n: map<K, V>, k: K, v: V)
    requires m - {k} == n - {k}
    ensures m[k := v] == n[k := v]
  {
    assert m[k := v] == (m - {k})[k := v] && n[k := v] == (n - {k})[k := v];
  }

  lemma PutTwice<K, V>(m: map<K, V>, k: K, v: V, w: V)
    ensures m[k := v][k := w] == m[k := w]
  {
  }

  lemma PartMore(done: seq<U8>, b: seq<U8>, room: nat)
    ensures room < |done| ==> Part(done + b, room) == Part(done, room)
    ensures room >= |done| ==> Part(done + b, room) == done + Part(b, room - |done|)
  {
  }

  /**
   The output directory.  The ghost fields say what the bytes mean: the contents of the files that a
   collector has written, the bytes of the others, and what has been written of an unfinished record.
   */
  class Directory {
    var files: map<Name, seq<U8>>
    ghost var logs: map<Name, Contents>
    ghost var junk: map<Name, seq<U8>>
    ghost var busy: Name
    ghost var pending: seq<U8>

    ghost predicate FileOk(n: Name)
      reads this
    {
      var tail := if n == busy then pending else [];
      && (n in files <==> n in logs || n in junk)
      && (n in logs ==> n !in junk && files[n] == FileBytes(logs[n]) + tail)
      && (n in junk ==> files[n] == junk[n] + tail)
    }

    ghost predicate Holds()
      reads this
    {
      forall n :: FileOk(n)
    }

    ghost predicate Valid()
      reads this
    {
      Holds() && pending == []
    }

    /** A directory with any files that no collector has written. */
    constructor (fs: map<Name, seq<U8>>)
      requires forall n :: n in fs ==> Rejected(fs[n]) || GoodHeader(DecodeHeader(fs[n]))
      ensures Valid() && files == fs && logs == map[] && junk == fs
      ensures forall n :: Sound(logs, junk, n)
    {
      files, logs, junk, pending := fs, map[], fs, [];
      new;
      forall n
        ensures FileOk(n)
      {
        if n in fs {
          assert fs[n] + [] == fs[n];
        }
      }
    }

    /** Makes sure that a file exists. */
    method Create(name: Name)
      requires Valid()
      modifies this
      ensures Valid() && logs == old(logs)
      ensures junk == if name in old(logs) || name in old(junk) then old(junk) else old(junk)[name := []]
      ensures junk - {name} == old(junk) - {name}
    {
      TakeAway(junk, name, []);
      assert FileOk(name);
      if name !in files {
        files, junk := files[name := []], junk[name := []];
      }
      forall n
        ensures FileOk(n)
      {
        assert old(FileOk(n));
      }
    }

    method Truncate(name: Name)
      requires Valid()
      modifies this
      ensures Valid() && logs == old(logs) - {name} && junk == old(junk)[name := []]
    {
      files, logs, junk := files[name := []], logs - {name}, junk[name := []];
      forall n
        ensures FileOk(n)
      {
        assert old(FileOk(n));
      }
    }

    /** Writes a header to an empty file, or as much of it as can be written. */
    method WriteHeader(name: Name, h: Header, room: nat) returns (ok: bool)
      requires Valid() && name in junk && junk[name] == []
      modifies this
      ensures Valid() && ok == (room >= |HeaderBytes(h)|)
      ensures if ok then logs == old(logs)[name := Contents(h, [])] && junk == old(junk) - {name}
              else logs == old(logs) && junk == old(junk)[name := Part(HeaderBytes(h), room)]
    {
      assert FileOk(name);
      var b := HeaderBytes(h);
      ok := room >= |b|;
      files := files[name := files[name] + Part(b, room)];
      if ok {
        logs, junk := logs[name := Contents(h, [])], junk - {name};
      } else {
        junk := junk[name := Part(b, room)];
      }
      forall n
        ensures FileOk(n)
      {
        assert old(FileOk(n));
      }
    }

    /** Writes a part of a record at the end of a file, or as much of it as can be written. */
    method Write(name: Name, b: seq<U8>, room: nat) returns (ok: bool)
      requires Holds() && (name in logs || name in junk) && (name == busy || pending == [])
      modifies this`files, this`busy, this`pending
      ensures Holds() && logs == old(logs) && junk == old(junk)
      ensures busy == name && pending == old(pending) + Part(b, room) && ok == (room >= |b|)
    {
      assert FileOk(name);
      ok := room >= |b|;
      ghost var whole, more := if name in logs then FileBytes(logs[name]) else junk[name], pending + Part(b, room);
      assert files[name] == whole + pending;
      assert (whole + pending) + Part(b, room) == whole + more;
      files, busy, pending := files[name := files[name] + Part(b, room)], name, more;
      forall n
        ensures FileOk(n)
      {
        assert old(FileOk(n));
      }
    }

    /** What has been written is a whole record. */
    ghost method Complete(name: Name, r: Record)
      requires Holds() && (name in logs || name in junk) && name == busy && pending == Encode(r)
      modifies this`logs, this`junk, this`pending
      ensures Valid()
      ensures name in old(logs) ==>
                junk == old(junk) && logs == old(logs)[name := old(logs)[name].(recs := old(logs)[name].recs + [r])]
      ensures name !in old(logs) ==> logs == old(logs) && junk == old(junk)[name := old(junk)[name] + Encode(r)]
    {
      if name in logs {
        CompleteLog(name, r);
      } else {
        CompleteJunk(name, r);
      }
    }

    ghost method CompleteLog(name: Name, r: Record)
      requires Holds() && name in logs && name == busy && pending == Encode(r)
      modifies this`logs, this`pending
      ensures Valid() && logs == old(logs)[name := old(logs)[name].(recs := old(logs)[name].recs + [r])]
    {
      assert FileOk(name);
      OneMoreRecord(logs[name], r);
      logs, pending := logs[name := logs[name].(recs := logs[name].recs + [r])], [];
      forall n
        ensures FileOk(n)
      {
        assert old(FileOk(n));
      }
    }

    ghost method CompleteJunk(name: Name, r: Record)
      requires Holds() && name in junk && name == busy && pending == Encode(r)
      modifies this`junk, this`pending
      ensures Valid() && junk == old(junk)[name := old(junk)[name] + Encode(r)]
    {
      assert FileOk(name);
      junk, pending := junk[name := junk[name] + Encode(r)], [];
      forall n
        ensures FileOk(n)
      {
        assert old(FileOk(n));
      }
    }

    /** What has been written stays a part. */
    ghost method TearOff(name: Name)
      requires Holds() && (name in logs || name in junk) && name == busy
      modifies this`logs, this`junk, this`pending
      ensures Valid() && logs == old(logs) - {name}
      ensures junk == old(junk)[name := (if name in old(logs) then FileBytes(old(logs)[name]) else old(junk)[name])
                                + old(pending)]
    {
      assert FileOk(name);
      ghost var b := if name in logs then FileBytes(logs[name]) else junk[name];
      logs, junk, pending := logs - {name}, junk[name := b + pending], [];
      forall n
        ensures FileOk(n)
      {
        assert old(FileOk(n));
      }
    }
  }

  // ---------- The program ----------

  lemma HeaderSize(c: Counts, now: Clock)
    requires c.InRange() && now.InRange()
    ensures |HeaderBytes(NewHeader(c, now))| == FILE_HDR_SIZE
  {
    NewHeaderAgrees(c, now);
    HeaderRoundTrip(NewHeader(c, now), []);
  }

  /** The files after the output file has been emptied and a header put on it. */
  lemma HeadedBy(w: World, now: Clock, room: nat, logs: map<Name, Contents>, junk: map<Name, seq<U8>>)
    requires var o, h, emptied := w.ofile, NewHeader(w.c, now), w.junk[w.ofile := []];
             if room >= FILE_HDR_SIZE then logs == (w.logs - {o})[o := Contents(h, [])] && junk == emptied - {o}
             else logs == w.logs - {o} && junk == emptied[o := Part(HeaderBytes(h), room)]
    ensures Headed(w, w.ofile, now, room) == w.(logs := logs, junk := junk, running := room >= FILE_HDR_SIZE)
  {
    var o, h := w.ofile, NewHeader(w.c, now);
    PutBack(w.logs, o, Contents(h, []));
    TakeAway(w.junk, o, []);
    PutTwice(w.junk, o, [], Part(HeaderBytes(h), room));
  }

  /** Taking the activity flag of the file over twice is the same as once. */
  lemma FlaggedTwice(w: World, name: Name, now: Clock, lock: Flock, room: nat, h: Option<Header>, p: Plan)
    ensures OpenedAs(w.(c := Flagged(w.c, h)), name, now, lock, room, h, p) == OpenedAs(w, name, now, lock, room, h, p)
  {
  }

  class Collector {
    const dir: Directory

    var actflag: nat
    var cpuNr: nat
    var serialNr: nat
    var irqcpuNr: nat
    var ifaceNr: nat
    var diskNr: nat

    var fOption: bool
    var lOption: bool
    var locked: bool
    var stdout: bool
    var stream: seq<U8>
    var fileHdr: Header
    var fileStats: StatsBytes
    var fileStatsSize: nat
    var ofile: Name
    var running: bool

    /** The file this process holds a lock on, and what it has put on standard output. */
    ghost var held: Option<Name>
    ghost var items: seq<Item>

    constructor (d: Directory)
      requires d.Valid() && forall n :: Sound(d.logs, d.junk, n)
      ensures dir == d && !running && Valid()
    {
      dir, running, fileStatsSize, ofile := d, false, FILE_STATS_SIZE, Name("");
      actflag, cpuNr, serialNr, irqcpuNr, ifaceNr, diskNr := 0, 0, 0, 0, 0, 0;
      fOption, lOption, locked, fileStats := false, false, false, Zeros(FILE_STATS_SIZE);
      stdout, stream, items, held := false, [], [], None;
      fileHdr := Header(0, 0, 0, 0, 0, 0, 0, 0, 0, 0, 0, 0, 0, []);
    }

    function Numbers(): (c: Counts)
      reads this
    {
      Counts(actflag, cpuNr, serialNr, irqcpuNr, ifaceNr, diskNr)
    }

    ghost function View(): (w: World)
      reads this, dir
    {
      World(dir.logs, dir.junk, Numbers(), fOption, lOption, locked, held, stdout, items, ofile, running)
    }

    /** The bytes are those the values stand for. */
    ghost predicate Written()
      reads this, dir
    {
      dir.Valid() && stream == StreamBytes(items) && (running ==> fileStatsSize == FILE_STATS_SIZE)
    }

    ghost predicate Valid()
      reads this, dir
    {
      Written() && Ok(View())
    }

    /** With option -L, asks for the lock on a file. */
    method AskForFlock(name: Name, lock: Flock, fatal: bool) returns (a: Answer)
      modifies this`locked, this`held
      ensures a == Asked(old(View()), lock, fatal)
      ensures View() == AfterAsk(old(View()), name, lock)
    {
      if lOption {
        if !lock.Granted? {
          if lock.WouldBlock? && !fatal {
            return Wait;
          }
          return Exit;
        }
        locked, held := true, Some(name);
      }
      return Go;
    }

    method FillHeader(now: Clock)
      modifies this`fileHdr, this`fileStatsSize
      ensures fileHdr == NewHeader(Numbers(), now) && fileStatsSize == FILE_STATS_SIZE
    {
      fileHdr := Header(now.time, actflag, 0, irqcpuNr, 0, cpuNr, serialNr, ifaceNr,
                        SA_MAGIC, FILE_STATS_SIZE, now.day, now.month, now.year, now.names);
      if Bit(actflag, DISK) {
        fileHdr := fileHdr.(nrDisk := diskNr);
      }
      fileStatsSize := FILE_STATS_SIZE;
    }

    /** Fills the header and writes it to the output file, which is empty. */
    method SetupFileHdr(now: Clock, room: nat) returns (ok: bool)
      requires dir.Valid() && ofile in dir.junk && dir.junk[ofile] == [] && now.InRange() && Numbers().InRange()
      modifies dir, this`fileHdr, this`fileStatsSize
      ensures dir.Valid() && fileStatsSize == FILE_STATS_SIZE && ok == (room >= FILE_HDR_SIZE)
      ensures var h := NewHeader(Numbers(), now);
              if ok then dir.logs == old(dir.logs)[ofile := Contents(h, [])] && dir.junk == old(dir.junk) - {ofile}
              else dir.logs == old(dir.logs) && dir.junk == old(dir.junk)[ofile := Part(HeaderBytes(h), room)]
    {
      HeaderSize(Numbers(), now);
      FillHeader(now);
      ok := dir.WriteHeader(ofile, fileHdr, room);
    }

    /** Empties the output file and writes a header; if the header does not fit, the program ends. */
    method Restart(now: Clock, room: nat)
      requires dir.Valid() && now.InRange() && Numbers().InRange()
      modifies dir, this`fileHdr, this`fileStatsSize, this`running
      ensures dir.Valid() && fileStatsSize == FILE_STATS_SIZE
      ensures View() == Headed(old(View()), ofile, now, room)
    {
      ghost var w := View();
      dir.Truncate(ofile);
      running := SetupFileHdr(now, room);
      HeadedBy(w, now, room, dir.logs, dir.junk);
    }

    /** Creates or empties a file and writes a header; without the lock the program ends. */
    method CreateSaFile(name: Name, now: Clock, lock: Flock, room: nat)
      requires dir.Valid() && now.InRange() && Numbers().InRange()
      modifies dir, this`ofile, this`locked, this`held, this`fileHdr, this`fileStatsSize, this`running
      ensures dir.Valid() && (running ==> fileStatsSize == FILE_STATS_SIZE)
      ensures View() == Created(old(View()), name, now, lock, room)
    {
      MakeAndAsk(name, lock);
      if running {
        SameBut(old(dir.junk), dir.junk, name, Part(HeaderBytes(NewHeader(Numbers(), now)), room));
        Restart(now, room);
        assert View() == Headed(AfterAsk(old(View()), name, lock), name, now, room);
      }
    }

    /** Makes sure that the file is there, and asks for the lock on it. */
    method MakeAndAsk(name: Name, lock: Flock)
      requires dir.Valid()
      modifies dir, this`ofile, this`locked, this`held, this`running
      ensures dir.Valid() && dir.logs == old(dir.logs) && dir.junk - {name} == old(dir.junk) - {name}
      ensures dir.junk == if name in old(dir.logs) || name in old(dir.junk) then old(dir.junk)
                          else old(dir.junk)[name := []]
      ensures running == Asked(old(View()), lock, true).Go?
      ensures View() == AfterAsk(old(View()), name, lock).(junk := dir.junk, ofile := name, running := running)
    {
      ofile := name;
      dir.Create(name);
      var a := AskForFlock(name, lock, true);
      running := a.Go?;
    }

    /** What the bytes of a file say about it. */
    lemma Recognised(name: Name)
      requires dir.Valid() && FilesOk(View())
      ensures name in dir.files <==> name in dir.logs || name in dir.junk
      ensures name in dir.files ==> dir.files[name] == BytesOf(View(), name)
      ensures name in dir.files && !Rejected(dir.files[name]) ==>
                HeaderIn(View(), name) == Some(DecodeHeader(dir.files[name]))
                && GoodHeader(DecodeHeader(dir.files[name]))
      ensures name !in dir.files || Rejected(dir.files[name]) ==> HeaderIn(View(), name) == None && name !in dir.logs
    {
      assert dir.FileOk(name) && Sound(dir.logs, dir.junk, name);
      if name in dir.logs {
        var b := FileBytes(dir.logs[name]);
        assert b + [] == b;
        BehindRecords(dir.logs[name], [], b);
      } else if name in dir.junk {
        assert dir.junk[name] + [] == dir.junk[name];
      }
    }

    /** Reads the header of a file, if it has one; its activity flag prevails over that of the user. */
    method Examine(name: Name) returns (p: Plan)
      requires dir.Valid() && FilesOk(View())
      modifies this`fileHdr, this`actflag, this`fileStatsSize
      ensures p == Planned(old(View()), name)
      ensures dir.Valid() && View() == old(View()).(c := ForNewFile(old(View()), name))
      ensures p.Append? ==> HeaderIn(View(), name) == Some(fileHdr) && fileStatsSize == FILE_STATS_SIZE
    {
      Recognised(name);
      if name !in dir.files {
        return Create;
      }
      var file := dir.files[name];
      if file == [] {
        return Create;
      }
      if |file| < FILE_HDR_SIZE || DecodeHeader(file).magic != SA_MAGIC {
        return if fOption then Create else Refuse;
      }
      fileHdr := DecodeHeader(file);
      actflag := fileHdr.actflag;
      fileStatsSize := fileHdr.stSize;
      if fileHdr.proc != cpuNr {
        return if fOption then Create else Refuse;
      }
      return Append;
    }

    /** Goes on with the file if its numbers can be taken over, otherwise ends. */
    method TakeOver(name: Name, append: bool)
      requires append ==> actflag == fileHdr.actflag
      modifies this`ofile, this`running, this`actflag, this`serialNr, this`irqcpuNr, this`ifaceNr, this`diskNr
      ensures View() == if append then
                          old(View()).(c := Adopted(old(Numbers()), fileHdr), ofile := name, running := true)
                        else old(View()).(ofile := name, running := false)
    {
      if append {
        Adopt();
      }
      ofile, running := name, append;
    }

    /** Opens the output file: creates it, or appends to it with the numbers in its header, or ends the program. */
    method OpenOfile(name: Name, now: Clock, lock: Flock, room: nat)
      requires dir.Valid() && FilesOk(View()) && now.InRange() && Numbers().InRange()
      modifies dir, this`ofile, this`locked, this`held, this`fileHdr, this`fileStatsSize, this`running
      modifies this`actflag, this`serialNr, this`irqcpuNr, this`ifaceNr, this`diskNr
      ensures dir.Valid() && (running ==> fileStatsSize == FILE_STATS_SIZE)
      ensures View() == Opened(old(View()), name, now, lock, room)
    {
      ForNewFileInRange(View(), name);
      ghost var w, h := View(), HeaderIn(View(), name);
      var p := Examine(name);
      OpenAs(name, now, lock, room, p, h);
      FlaggedTwice(w, name, now, lock, room, h, p);
    }

    /** Creates the file, appends to it, or ends the program, as is planned. */
    method OpenAs(name: Name, now: Clock, lock: Flock, room: nat, p: Plan, ghost h: Option<Header>)
      requires dir.Valid() && now.InRange() && Numbers().InRange() && Flagged(Numbers(), h) == Numbers()
      requires p.Append? ==> h == Some(fileHdr) && fileStatsSize == FILE_STATS_SIZE
      modifies dir, this`ofile, this`locked, this`held, this`fileHdr, this`fileStatsSize, this`running
      modifies this`actflag, this`serialNr, this`irqcpuNr, this`ifaceNr, this`diskNr
      ensures dir.Valid() && (running ==> fileStatsSize == FILE_STATS_SIZE)
      ensures View() == OpenedAs(old(View()), name, now, lock, room, h, p)
    {
      if p.Create? {
        CreateSaFile(name, now, lock, room);
      } else {
        TakeOver(name, p.Append?);
      }
    }

    /** Takes over the numbers of the file. */
    method Adopt()
      requires actflag == fileHdr.actflag
      modifies this`actflag, this`serialNr, this`irqcpuNr, this`ifaceNr, this`diskNr
      ensures Numbers() == Adopted(old(Numbers()), fileHdr)
    {
      if fileHdr.serial != serialNr {
        serialNr := fileHdr.serial;
      }
      if fileHdr.iface != ifaceNr {
        ifaceNr := fileHdr.iface;
      }
      if fileHdr.irqcpu != irqcpuNr {
        irqcpuNr := fileHdr.irqcpu;
      }
      if fileHdr.nrDisk != diskNr {
        if fileHdr.nrDisk == 0 {
          actflag := ClearBit(actflag, DISK);
        } else {
          diskNr := fileHdr.nrDisk;
        }
      }
    }

    /**
     One of the writes that make up a record, if there is something to write and the writes before it
     have gone well; `done` is what these were to write, `left` the room they have left.
     */
    method WritePart(ghost done: seq<U8>, count: nat, b: seq<U8>, ok: bool, left: nat, ghost room: nat)
      returns (ok': bool, left': nat)
      requires dir.Holds() && (ofile in dir.logs || ofile in dir.junk) && (ofile == dir.busy || dir.pending == [])
      requires dir.pending == Part(done, room) && ok == (room >= |done|) && (ok ==> left == room - |done|)
      requires count == 0 ==> b == []
      modifies dir`files, dir`busy, dir`pending
      ensures dir.Holds() && dir.logs == old(dir.logs) && dir.junk == old(dir.junk)
      ensures dir.pending == Part(done + b, room) && (ofile == dir.busy || dir.pending == [])
      ensures ok' == (room >= |done + b|) && (ok' ==> left' == room - |done + b|)
    {
      PartMore(done, b, room);
      ok', left' := ok, left;
      if ok && count > 0 {
        ok' := dir.Write(ofile, b, left);
        left' := if ok' then left - |b| else 0;
      } else if count == 0 {
        assert done + b == done;
      }
    }

    /** The first four writes of a record. */
    method WriteFront(mem: Memory, room: nat) returns (ok: bool, left: nat)
      requires dir.Valid() && (ofile in dir.logs || ofile in dir.junk) && fileStatsSize == FILE_STATS_SIZE
      modifies dir`files, dir`busy, dir`pending
      ensures dir.Holds() && dir.logs == old(dir.logs) && dir.junk == old(dir.junk)
      ensures var l := WriterLayout(Numbers());
              var d := fileStats + Buffer(mem.cpu, l.cpu) + Buffer(mem.irq, l.irq) + Buffer(mem.serial, l.serial);
              && dir.pending == Part(d, room) && (ofile == dir.busy || dir.pending == [])
              && ok == (room >= |d|) && (ok ==> left == room - |d|)
    {
      ghost var l, d := WriterLayout(Numbers()), [];
      ok, left := WritePart(d, 1, fileStats[..fileStatsSize], true, room, room);
      assert d + fileStats[..fileStatsSize] == fileStats;
      d := fileStats;
      ok, left := WritePart(d, cpuNr, Buffer(mem.cpu, CpuSize(cpuNr)), ok, left, room);
      d := d + Buffer(mem.cpu, l.cpu);
      var irqs := if Bit(actflag, ONE_IRQ) then STATS_ONE_IRQ_SIZE else 0;
      ok, left := WritePart(d, irqs, Buffer(mem.irq, irqs), ok, left, room);
      d := d + Buffer(mem.irq, l.irq);
      ok, left := WritePart(d, serialNr, Buffer(mem.serial, STATS_SERIAL_SIZE * serialNr), ok, left, room);
    }

    /** The writes of one record, up to the one that fails. */
    method WriteParts(mem: Memory, room: nat) returns (ok: bool)
      requires dir.Valid() && (ofile in dir.logs || ofile in dir.junk) && fileStatsSize == FILE_STATS_SIZE
      modifies dir`files, dir`busy, dir`pending
      ensures dir.Holds() && dir.logs == old(dir.logs) && dir.junk == old(dir.junk)
      ensures var e := Encode(StatsRecord(Numbers(), fileStats, mem));
              && dir.pending == Part(e, room) && (ofile == dir.busy || dir.pending == []) && ok == (room >= |e|)
    {
      ghost var l := WriterLayout(Numbers());
      ghost var d := fileStats + Buffer(mem.cpu, l.cpu) + Buffer(mem.irq, l.irq) + Buffer(mem.serial, l.serial);
      var left;
      ok, left := WriteFront(mem, room);
      ok, left := WritePart(d, irqcpuNr, Buffer(mem.irqcpu, IrqCpuSize(cpuNr, irqcpuNr)), ok, left, room);
      d := d + Buffer(mem.irqcpu, l.irqcpu);
      ok, left := WritePart(d, ifaceNr, Buffer(mem.iface, STATS_NET_DEV_SIZE * ifaceNr), ok, left, room);
      d := d + Buffer(mem.iface, l.iface);
      var disks := if Bit(actflag, DISK) then DISK_STATS_SIZE * diskNr else 0;
      ok, left := WritePart(d, disks, Buffer(mem.disk, disks), ok, left, room);
      RecordFromTheLeft(Numbers(), fileStats, mem);
    }

    /** After the writes of a record: unless all of it is written, the program ends. */
    method Conclude(ghost r: Record, ghost room: nat, ok: bool)
      requires dir.Holds() && (ofile in dir.logs || ofile in dir.junk) && (ofile == dir.busy || dir.pending == [])
      requires dir.pending == Part(Encode(r), room) && ok == (room >= |Encode(r)|) && running && Encode(r) != []
      modifies dir`logs, dir`junk, dir`pending, this`running
      ensures dir.Valid() && View() == Put(old(View()), r, room)
    {
      assert dir.FileOk(ofile);
      if ok {
        dir.Complete(ofile, r);
      } else {
        running := false;
        if dir.pending != [] {
          dir.TearOff(ofile);
        }
      }
    }

    /** Writes the record for one sample: without the lock the program waits for the next one, or ends. */
    method WriteStats(mem: Memory, lock: Flock, room: nat)
      requires dir.Valid() && running && HeaderIn(View(), ofile).Some? && fileStatsSize == FILE_STATS_SIZE
      modifies dir, this`locked, this`held, this`running
      ensures dir.Valid()
      ensures View() == Wrote(old(View()), StatsRecord(Numbers(), fileStats, mem), lock, false, room)
    {
      var a := Go;
      if !locked {
        a := AskForFlock(ofile, lock, false);
      }
      if a.Go? {
        var ok := WriteParts(mem, room);
        Conclude(StatsRecord(Numbers(), fileStats, mem), room, ok);
      } else {
        running := a.Wait?;
      }
    }

    /** Marks a restart; without the lock the program ends. */
    method WriteDummyRecord(now: Clock, lock: Flock, room: nat)
      requires dir.Valid() && running && HeaderIn(View(), ofile).Some? && fileStatsSize == FILE_STATS_SIZE
      modifies dir, this`locked, this`held, this`running, this`fileStats
      ensures dir.Valid()
      ensures View() == Wrote(old(View()), Record(DummyStats(now), NOTHING), lock, true, room)
    {
      var a := Go;
      if !locked {
        a := AskForFlock(ofile, lock, true);
      }
      if a.Go? {
        fileStats := DummyStats(now);
        ghost var r := Record(fileStats, NOTHING);
        assert Encode(r) == fileStats[..fileStatsSize];
        var ok := dir.Write(ofile, fileStats[..fileStatsSize], room);
        Conclude(r, room, ok);
      } else {
        running := false;
      }
    }

    /** Puts something at the end of standard output. */
    method PrintOut(b: seq<U8>, ghost i: Item)
      requires Written() && b == ItemBytes(i)
      modifies this`stream, this`items
      ensures Written() && View() == old(View()).(stream := old(items) + [i])
    {
      JoinOneMore(ItemBytes, items, i);
      stream, items := stream + b, items + [i];
    }

    /** Puts the record for one sample on standard output, where no lock is asked for. */
    method ShowStats(ghost stats: StatsBytes, mem: Memory, mark: U8)
      requires Written() && running && stdout && fileStats == Typed(stats, mark)
      modifies this`stream, this`items
      ensures Written() && View() == Shown(old(View()), stats, mem, mark)
    {
      RecordFromTheLeft(Numbers(), fileStats, mem);
      var irqs := if Bit(actflag, ONE_IRQ) then STATS_ONE_IRQ_SIZE else 0;
      var disks := if Bit(actflag, DISK) then DISK_STATS_SIZE * diskNr else 0;
      PrintOut(fileStats[..fileStatsSize] + Buffer(mem.cpu, CpuSize(cpuNr)) + Buffer(mem.irq, irqs)
               + Buffer(mem.serial, STATS_SERIAL_SIZE * serialNr) + Buffer(mem.irqcpu, IrqCpuSize(cpuNr, irqcpuNr))
               + Buffer(mem.iface, STATS_NET_DEV_SIZE * ifaceNr) + Buffer(mem.disk, disks),
               Bunch(StatsRecord(Numbers(), fileStats, mem)));
    }

    /** Puts a header on standard output. */
    method Announce(now: Clock)
      requires Written()
      modifies this`fileHdr, this`fileStatsSize, this`stream, this`items
      ensures Written() && View() == Announced(old(View()), now)
    {
      if running && stdout {
        FillHeader(now);
        PrintOut(HeaderBytes(fileHdr), Head(fileHdr));
      }
    }

    /** Counts the items of the machine. */
    method SysInit(m: Machine)
      modifies this`actflag, this`cpuNr, this`serialNr, this`irqcpuNr, this`ifaceNr, this`diskNr
      ensures Numbers() == Counted(old(Numbers()), m)
    {
      cpuNr := m.cpu;
      serialNr := m.serial;
      if serialNr != 0 {
        actflag := SetBit(actflag, SERIAL);
      }
      irqcpuNr := if cpuNr > 0 then m.irqcpu else 0;
      ifaceNr := m.iface;
      if ifaceNr != 0 {
        actflag := SetBit(SetBit(actflag, NET_DEV), NET_EDEV);
      }
      diskNr := m.disk;
      if diskNr > 0 {
        diskNr := diskNr + NR_DISK_PREALLOC;
      }
    }

    /** The old file is closed, and the items of the machine are counted. */
    method Recount(m: Machine)
      modifies this`held, this`actflag, this`cpuNr, this`serialNr, this`irqcpuNr, this`ifaceNr, this`diskNr
      ensures View() == Recounted(old(View()), m)
    {
      held := None;
      SysInit(m);
    }

    /** Writes a sample to the file. */
    method Save(ghost stats: StatsBytes, mem: Memory, lock: Flock, room: nat)
      requires Valid() && (running ==> fileStats == Typed(stats, R_STATS))
      modifies dir, this`locked, this`held, this`running
      ensures Valid() && View() == Filed(old(View()), stats, mem, lock, room)
    {
      FiledOk(View(), stats, mem, lock, room);
      if running {
        WriteStats(mem, lock, room);
      }
    }

    /** Takes one sample and writes it, to standard output first. */
    method TakeSample(stats: StatsBytes, mem: Memory, mark: U8, lock: Flock, room: nat)
      requires Valid()
      modifies dir, this`fileStats, this`stream, this`items, this`locked, this`held, this`running
      ensures Valid() && View() == Filed(Shown(old(View()), stats, mem, mark), stats, mem, lock, room)
      ensures running ==> fileStats == Typed(stats, R_STATS)
    {
      fileStats := Typed(stats, mark);
      if running && stdout {
        ShowStats(stats, mem, mark);
      }
      fileStats := fileStats[RECORD_TYPE := R_STATS];
      assert fileStats == Typed(stats, R_STATS);
      Save(stats, mem, lock, room);
    }

    /** Marks a restart and ends. */
    method Mark(now: Clock, lock: Flock, room: nat)
      requires Valid()
      modifies dir, this`locked, this`held, this`running, this`fileStats
      ensures Valid() && View() == Marked(old(View()), now, lock, room)
    {
      MarkedOk(View(), now, lock, room);
      if running {
        WriteDummyRecord(now, lock, room);
        running := false;
      }
    }

    /** Counts the items of the machine anew and opens a file. */
    method Enter(m: Machine, outNow: Clock, name: Name, now: Clock, lock: Flock, room: nat)
      requires Written() && FilesOk(View()) && actflag < Pow2(32) && m.InRange() && now.InRange()
      modifies dir, this`ofile, this`locked, this`held, this`fileHdr, this`fileStatsSize, this`running, this`stream,
               this`items
      modifies this`actflag, this`cpuNr, this`serialNr, this`irqcpuNr, this`ifaceNr, this`diskNr
      ensures Valid()
      ensures View() == Opened(Announced(Recounted(old(View()), m), outNow), name, now, lock, room)
    {
      RecountedInRange(View(), m);
      AnnouncedOk(Recounted(View(), m), outNow);
      Recount(m);
      Announce(outNow);
      Reopen(name, now, lock, room);
    }

    /** Opening leaves everything in order. */
    method Reopen(name: Name, now: Clock, lock: Flock, room: nat)
      requires Written() && FilesOk(View()) && Numbers().InRange() && now.InRange()
      modifies dir, this`ofile, this`locked, this`held, this`fileHdr, this`fileStatsSize, this`running
      modifies this`actflag, this`serialNr, this`irqcpuNr, this`ifaceNr, this`diskNr
      ensures Valid() && View() == Opened(old(View()), name, now, lock, room)
    {
      OpenedOk(View(), name, now, lock, room);
      OpenOfile(name, now, lock, room);
    }

    method SetOptions(f: bool, l: bool, out: bool)
      requires dir.Valid()
      modifies this`fOption, this`lOption, this`stdout, this`stream, this`items, this`running
      ensures Written()
      ensures View() == old(View()).(fOption := f, lOption := l, stdout := out, stream := [], running := false)
    {
      fOption, lOption, stdout, stream, items, running := f, l, out, [], [], false;
    }

    method SetFlags(flags: nat)
      modifies this`actflag, this`cpuNr, this`serialNr, this`irqcpuNr, this`ifaceNr, this`diskNr
      ensures Numbers() == Counts(ClearBit(flags, PID), 0, 0, 0, 0, 0)
    {
      actflag, cpuNr, serialNr, irqcpuNr, ifaceNr, diskNr := ClearBit(flags, PID), 0, 0, 0, 0, 0;
    }

    /** A collector begins, with its options, without counts and without a lock. */
    method Begin(flags: nat, f: bool, l: bool, out: bool)
      requires dir.Valid()
      modifies this
      ensures Written() && View() == Fresh(old(View()), flags, f, l, out)
    {
      SetOptions(f, l, out);
      SetFlags(flags);
      locked, held, fileStatsSize := false, None, FILE_STATS_SIZE;
    }

    /** Starts with the file; the header on standard output comes second. */
    method Open(e: Event)
      requires Written() && FilesOk(View()) && actflag < Pow2(32) && !running && e.Start? && e.InRange()
      modifies this, dir
      ensures Valid()
      ensures View() == Announced(Opened(Recounted(old(View()), e.m), e.name, e.now, e.lock, e.room), e.outNow)
    {
      Enter(e.m, e.outNow, e.name, e.now, e.lock, e.room);
      AnnouncedOk(View(), e.outNow);
      Announce(e.outNow);
    }

    method Launch(e: Event)
      requires Valid() && e.Start? && e.InRange()
      modifies this, dir
      ensures Valid() && View() == Step(old(View()), e)
    {
      SingleBitBounds(e.actflag, PID, 32);
      Begin(e.actflag, e.fOption, e.lOption, e.stdout);
      Open(e);
      if e.markOnly {
        Mark(e.later, e.laterLock, e.laterRoom);
      }
    }

    /** Goes on in another file, with the sample just taken. */
    method MoveOn(e: Event)
      requires Valid() && e.Rotation? && e.InRange() && fileStats == Typed(e.stats, R_STATS)
      modifies this, dir
      ensures Valid()
      ensures View() == Filed(Opened(Announced(Recounted(old(View()), e.m), e.outNow),
                                     e.name, e.now, e.newLock, e.newRoom),
                              e.stats, e.newMem, e.laterLock, e.laterRoom)
    {
      Enter(e.m, e.outNow, e.name, e.now, e.newLock, e.newRoom);
      Save(e.stats, e.newMem, e.laterLock, e.laterRoom);
    }

    /** Takes the last sample of a file, and writes it to the next file as well. */
    method Rotate(e: Event)
      requires Valid() && e.Rotation? && e.InRange()
      modifies this, dir
      ensures Valid() && View() == Step(old(View()), e)
    {
      TakeSample(e.stats, e.mem, R_LAST_STATS, e.lock, e.room);
      if running {
        MoveOn(e);
      }
    }

    /**
     Any history of collectors, one at a time.  In the end every file a collector has written parses
     into its header and exactly the records written to it, and ends after the last of them.
     */
    method RunAll(es: seq<Event>)
      requires Valid() && forall i :: 0 <= i < |es| ==> es[i].InRange()
      modifies this, dir
      ensures Valid() && View() == Run(old(View()), es)
      ensures forall n :: n in dir.logs ==> ReadsAs(dir.files, n, dir.logs[n])
    {
      ghost var w := View();
      for i := 0 to |es|
        invariant Valid() && View() == Run(w, es[..i])
      {
        RunOneMore(w, es[..i], es[i]);
        assert es[..i + 1] == es[..i] + [es[i]];
        match es[i]
        case Start(_, _, _, _, _, _, _, _, _, _, _, _, _, _) => Launch(es[i]);
        case Sample(stats, mem, lock, room) => TakeSample(stats, mem, R_STATS, lock, room);
        case Rotation(_, _, _, _, _, _, _, _, _, _, _, _, _) => Rotate(es[i]);
      }
      assert es[..|es|] == es;
      forall n | n in dir.logs
        ensures ReadsAs(dir.files, n, dir.logs[n])
      {
        ReadBack(n);
      }
    }

    lemma ReadBack(n: Name)
      requires dir.Valid() && FilesOk(View()) && n in dir.logs
      ensures ReadsAs(dir.files, n, dir.logs[n])
    {
      assert dir.FileOk(n) && Sound(dir.logs, dir.junk, n);
      WrittenIsRead(dir.logs[n]);
      assert FileBytes(dir.logs[n]) + [] == FileBytes(dir.logs[n]);
    }
  }

  /** The readers' view of a file. */
  ghost predicate ReadsAs(files: map<Name, seq<U8>>, n: Name, k: Contents) {
    && n in files && !Rejected(files[n]) && DecodeHeader(files[n]) == k.hdr
    && Parse(HeaderLayout(k.hdr), files[n], FILE_HDR_SIZE) == Some(k.recs)
  }
}
