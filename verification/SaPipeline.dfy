/** From the collector to the reports: what is displayed is what was written. */
module SaPipeline {
  import opened SaFile
  import opened SaReader
  import Sadc
  import SadcModel
  import SadfXml
  import SarReport
  import SarPipe

  /** A file of a collector, opened for reading, stands on the first of the records written to it. */
  method OpenWritten(c: Sadc.Collector, name: SadcModel.Name) returns (rd: Reader)
    requires c.Valid() && name in c.dir.logs
    ensures fresh(rd) && rd.hdr == c.dir.logs[name].hdr && rd.Stands(rd.pos, c.dir.logs[name].recs, 0)
  {
    c.ReadBack(name);
    assert SadcModel.Sound(c.dir.logs, c.dir.junk, name);
    rd := new Reader(c.dir.files[name]);
    StandsAtFirst(rd, c.dir.logs[name].recs);
  }

  /**
   The XML report on a file compares exactly the neighbours among the records written, and lists every restart
   mark.
   */
  method XmlReport(c: Sadc.Collector, name: SadcModel.Name) returns (r: SadfXml.Report)
    requires c.Valid() && name in c.dir.logs
    ensures r.timestamps == SadfXml.Neighbours(c.dir.logs[name].recs)
    ensures r.restarts == SadfXml.Restarts(c.dir.logs[name].recs)
  {
    var rd := OpenWritten(c, name);
    r := new SadfXml.Report(Record([], NOTHING));
    r.XmlDisplayLoop(rd, c.dir.logs[name].recs);
  }

  /**
   sar's report is the only one there is on the records written (`SarReport.OneReport`): its sections begin at the
   right records, their lines and averages are those of these records, and it ends where a pass ends the program.
   */
  method ActivityReport(c: Sadc.Collector, name: SadcModel.Name, acts: seq<nat>, count: int, usable: nat -> bool,
                        sel: SarReport.Selection)
    returns (firsts: seq<nat>, report: seq<seq<SarReport.Output>>, exit: bool)
    requires c.Valid() && name in c.dir.logs && acts != [] && count != 0 && sel.InRange()
    ensures var k := c.dir.logs[name];
            SarReport.IsReport(k.recs, acts, count, usable, sel, SarReport.SumGauges(), k.hdr, firsts, report, exit)
  {
    var rd := OpenWritten(c, name);
    var sar := new SarReport.Sar(rd, Record([], NOTHING));
    firsts, report, exit := sar.ReadStatsFromFile(c.dir.logs[name].recs, acts, count, usable, sel);
  }

  /** sar at the other end of a pipe gets what the collector has written there, if and only if that is in order. */
  method PipeReport(c: Sadc.Collector, count: int) returns (items: seq<SadcModel.Item>)
    requires c.Valid() && SarPipe.Shaped(c.items) && count != 0
    ensures count == -1 ==> (items == c.items <==> SadcModel.StreamOk(c.items))
    ensures SadcModel.StreamOk(c.items) ==> items <= c.items
  {
    var pipe := new SarPipe.Pipe(c.stream);
    items := pipe.ReadStats(count);
    SarPipe.ReceivedIff(c.items);
    SarPipe.CountCuts(c.stream, count);
  }
}
