/** The end of a run: the summary record built from the loop state, and the
    destination archive closed by one synthetic member holding that record. */
module Summary {
  import opened TarEntry
  import opened Classifier
  import opened Filter
  import opened LexOrder

  /** The summary record, without its wall-clock fields. */
  datatype Report = Report(
    source: Tally,
    suppressedCount: nat,
    suppressedPaths: seq<string>,
    hardLinks: map<string, string>,
    hardCount: nat,
    symbolicLinks: map<string, string>,
    symbolicCount: nat,
    destination: Tally)

  /** Builds the record from the final loop state. Counts are sizes of the
      set and maps, so a name dropped twice or a link name recorded twice
      counts once; the paths are the suppressed names in increasing order. */
  method Assemble(st: State) returns (rep: Report)
    ensures rep.source == st.src && rep.destination == st.dst
    ensures rep.suppressedCount == |st.suppressed|
    ensures StrictlySorted(rep.suppressedPaths)
    ensures forall p :: p in rep.suppressedPaths <==> p in st.suppressed
    ensures |rep.suppressedPaths| == rep.suppressedCount
    ensures rep.hardLinks == st.hardLinks && rep.hardCount == |st.hardLinks|
    ensures rep.symbolicLinks == st.symbolicLinks && rep.symbolicCount == |st.symbolicLinks|
  {
    var paths := SortedList(st.suppressed);
    rep := Report(st.src, |st.suppressed|, paths, st.hardLinks, |st.hardLinks|,
                  st.symbolicLinks, |st.symbolicLinks|, st.dst);
  }

  /** A whole conversion of the source members `es`. `failed` says which
      content extractions fail; `reportSize` is the length of the report's
      serialized text (which also holds the wall-clock fields), and becomes
      the size of the trailing member. */
  method Convert(es: seq<Entry>, failed: Oracle, reportSize: nat)
    returns (rep: Report, archive: seq<Entry>)
    ensures |archive| == rep.destination.totalItems + 1
    ensures archive == Survivors(es, failed) + [ReportEntry(reportSize)]
    ensures archive[|archive| - 1].name == ReportName
    ensures rep.source == TallyOf(es, SizeSum(es))
    ensures var w := archive[..|archive| - 1]; rep.destination == TallyOf(w, FileBytes(w))
    ensures rep.destination.totalItems + rep.suppressedCount <= rep.source.totalItems
    ensures StrictlySorted(rep.suppressedPaths)
    ensures forall p :: p in rep.suppressedPaths <==> p in NamesWhere(es, Dropped)
    ensures rep.suppressedCount == |NamesWhere(es, Dropped)| == |rep.suppressedPaths|
    ensures rep.hardLinks == Run(es, failed).hardLinks
    ensures rep.symbolicLinks == Run(es, failed).symbolicLinks
    ensures rep.hardCount == |rep.hardLinks| && rep.symbolicCount == |rep.symbolicLinks|
    ensures rep.hardLinks.Keys == NamesWhere(es, KeptHardLink)
    ensures rep.symbolicLinks.Keys == NamesWhere(es, KeptSymLink)
  {
    var st := Run(es, failed);
    SourceTally(es, failed);
    DestinationTally(es, failed);
    WrittenAreSurvivors(es, failed);
    SuppressedAreDropped(es, failed);
    LinkKeys(es, failed, Hard);
    LinkKeys(es, failed, Sym);
    rep := Assemble(st);
    archive := st.written + [ReportEntry(reportSize)];
    assert archive[..|archive| - 1] == st.written;
  }
}
