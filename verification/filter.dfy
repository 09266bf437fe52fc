/** The streaming loop: every source member is tallied, classified, and
    either suppressed, skipped after a failed extraction, or renamed and
    written to the destination. The loop is a left fold of `Step` over the
    member sequence. */
module Filter {
  import opened Strings
  import opened TarEntry
  import opened Classifier

  /** One side's counters. Each category counts a member at most once. */
  datatype Tally = Tally(
    files: nat,
    folders: nat,
    links: nat,
    others: nat,
    totalItems: nat,
    totalBytes: nat)
  {
    /** This tally after counting `e`, with `bytes` added to the byte total. */
    function Add(e: Entry, bytes: nat): Tally
    {
      Tally(
        files + (if CountsAsFile(e) then 1 else 0),
        folders + (if CountsAsFolder(e) then 1 else 0),
        links + (if CountsAsLink(e) then 1 else 0),
        others + (if CountsAsOther(e) then 1 else 0),
        totalItems + 1,
        totalBytes + bytes)
    }
  }

  const NoItems: Tally := Tally(0, 0, 0, 0, 0, 0)

  /** Everything the loop carries from one member to the next. `ignored`
      counts dropped members (duplicates included); `written` is the
      destination archive so far, in write order. */
  datatype State = State(
    src: Tally,
    ignored: nat,
    suppressed: set<string>,
    symbolicLinks: map<string, string>,
    hardLinks: map<string, string>,
    dst: Tally,
    written: seq<Entry>)

  const Start: State := State(NoItems, 0, {}, map[], map[], NoItems, [])

  /** Whether opening the content of the member at a 0-based source position
      fails. Only kept regular files have their content opened. */
  type Oracle = nat -> bool

  /** The header written for a kept member: renamed, and for a hard link the
      target loses its leading directory too. Symbolic-link targets stay. */
  function Renamed(m: Entry): (r: Entry)
    requires KeepTarItem(m).Keep?
    ensures r.name == KeepTarItem(m).entry.name
    ensures r == m.(name := r.name, linkname := r.linkname)
    ensures !m.IsLnk() || '/' !in m.linkname ==> r.linkname == m.linkname
    ensures m.IsLnk() ==> r.linkname == StripTop(m.linkname)
  {
    var n := KeepTarItem(m).entry;
    if m.IsLnk() then n.(linkname := StripTop(m.linkname)) else n
  }

  /** The member at position `i` reaches the destination. */
  predicate Survives(m: Entry, i: nat, failed: Oracle)
  {
    KeepTarItem(m).Keep? && !(m.IsFile() && failed(i))
  }

  /** One iteration of the loop for member `m` at position `i`. */
  function Step(st: State, i: nat, m: Entry, failed: Oracle): (st': State)
    ensures st'.src.totalItems == st.src.totalItems + 1
    ensures st'.src.totalBytes == st.src.totalBytes + m.size
    ensures st.suppressed <= st'.suppressed && st.written <= st'.written
    ensures st.hardLinks.Keys <= st'.hardLinks.Keys
    ensures st.symbolicLinks.Keys <= st'.symbolicLinks.Keys
    ensures st'.dst.totalItems - |st'.written| == st.dst.totalItems - |st.written|
    ensures KeepTarItem(m).Drop? ==>
      st'.suppressed == st.suppressed + {m.name} && st'.ignored == st.ignored + 1
      && st'.written == st.written && st'.dst == st.dst
    ensures KeepTarItem(m).Keep? ==>
      st'.suppressed == st.suppressed && st'.ignored == st.ignored
    ensures KeepTarItem(m).Keep? && m.IsFile() && failed(i) ==>
      st' == st.(src := st'.src)
    ensures st'.written == st.written + if Survives(m, i, failed) then [Renamed(m)] else []
  {
    var src := st.src.Add(m, m.size);
    match KeepTarItem(m)
    case Drop =>
      st.(src := src, ignored := st.ignored + 1, suppressed := st.suppressed + {m.name})
    case Keep(_) =>
      if m.IsFile() && failed(i) then st.(src := src)
      else
        var n := Renamed(m);
        st.(src := src,
            hardLinks := if m.IsLnk() then st.hardLinks[m.name := m.linkname] else st.hardLinks,
            symbolicLinks := if m.IsSym() then st.symbolicLinks[m.name := m.linkname] else st.symbolicLinks,
            dst := st.dst.Add(n, if m.IsFile() then n.size else 0),
            written := st.written + [n])
  }

  /** The loop over a whole source archive. */
  function Run(es: seq<Entry>, failed: Oracle): (st: State)
    decreases |es|
    ensures st.src.totalItems == |es|
    ensures st.dst.totalItems == |st.written|
    ensures st.dst.totalItems + st.ignored <= st.src.totalItems
    ensures |st.suppressed| <= st.ignored
    ensures st.dst.totalItems + |st.suppressed| <= st.src.totalItems
  {
    if |es| == 0 then Start
    else
      var prev := Run(es[..|es| - 1], failed);
      var st := Step(prev, |es| - 1, es[|es| - 1], failed);
      assert |st.suppressed| <= |prev.suppressed| + 1 by {
        assert st.suppressed <= prev.suppressed + {es[|es| - 1].name};
      }
      st
  }

  // ---------------------------------------------------------------------
  // Reference definitions: the same quantities counted directly from the
  // member sequence, without the loop state.

  function CountIf(es: seq<Entry>, p: Entry -> bool): nat
  {
    if |es| == 0 then 0
    else CountIf(es[..|es| - 1], p) + (if p(es[|es| - 1]) then 1 else 0)
  }

  function SizeSum(es: seq<Entry>): nat
  {
    if |es| == 0 then 0 else SizeSum(es[..|es| - 1]) + es[|es| - 1].size
  }

  function FileBytes(es: seq<Entry>): nat
  {
    if |es| == 0 then 0
    else FileBytes(es[..|es| - 1]) + (if es[|es| - 1].IsFile() then es[|es| - 1].size else 0)
  }

  /** The four categories each side counts. */
  predicate CountsAsFile(e: Entry) { e.IsFile() }
  predicate CountsAsFolder(e: Entry) { e.IsDir() }
  predicate CountsAsLink(e: Entry) { e.IsSym() || e.IsLnk() }
  predicate CountsAsOther(e: Entry) { e.IsDev() }
  /** Members of no category. */
  predicate Uncategorized(e: Entry) { e.kind.Other? }
  predicate Dropped(e: Entry) { KeepTarItem(e).Drop? }

  /** The counters a list of members should produce, given how bytes are
      counted for it. */
  function TallyOf(es: seq<Entry>, bytes: nat): Tally
  {
    Tally(
      CountIf(es, CountsAsFile),
      CountIf(es, CountsAsFolder),
      CountIf(es, CountsAsLink),
      CountIf(es, CountsAsOther),
      |es|,
      bytes)
  }

  /** The destination members expected from `es`: the survivors, renamed,
      in source order. */
  function Survivors(es: seq<Entry>, failed: Oracle): seq<Entry>
  {
    if |es| == 0 then []
    else
      var last := es[|es| - 1];
      Survivors(es[..|es| - 1], failed)
      + if Survives(last, |es| - 1, failed) then [Renamed(last)] else []
  }

  // ---------------------------------------------------------------------
  // What the loop computes.

  /** The source counters are the direct counts over all members. */
  lemma {:induction false} SourceTally(es: seq<Entry>, failed: Oracle)
    ensures Run(es, failed).src == TallyOf(es, SizeSum(es))
  {
    if |es| > 0 {
      SourceTally(es[..|es| - 1], failed);
    }
  }

  /** The destination archive (before the report member) holds exactly the
      surviving members, renamed, in source order. */
  lemma {:induction false} WrittenAreSurvivors(es: seq<Entry>, failed: Oracle)
    ensures Run(es, failed).written == Survivors(es, failed)
  {
    if |es| > 0 {
      WrittenAreSurvivors(es[..|es| - 1], failed);
    }
  }

  /** The destination counters are the direct counts over the written
      members, and only regular files contribute bytes. */
  lemma {:induction false} DestinationTally(es: seq<Entry>, failed: Oracle)
    ensures Run(es, failed).dst == TallyOf(Run(es, failed).written, FileBytes(Run(es, failed).written))
  {
    if |es| > 0 {
      var prefix, last := es[..|es| - 1], es[|es| - 1];
      DestinationTally(prefix, failed);
      var prev := Run(prefix, failed);
      var st := Run(es, failed);
      assert st == Step(prev, |prefix|, last, failed);
      if Survives(last, |prefix|, failed) {
        var n := Renamed(last);
        TallySnoc(prev.written, n);
        assert st.written == prev.written + [n];
        assert st.dst == prev.dst.Add(n, if n.IsFile() then n.size else 0);
      } else {
        assert st.written == prev.written && st.dst == prev.dst;
      }
    }
  }

  /** Counting one more member at the end of a list. */
  lemma TallySnoc(w: seq<Entry>, x: Entry)
    ensures TallyOf(w + [x], FileBytes(w + [x]))
         == TallyOf(w, FileBytes(w)).Add(x, if x.IsFile() then x.size else 0)
  {
    assert (w + [x])[..|w|] == w;
  }

  /** The four categories never overlap; only members of kind Other fall
      outside all of them. */
  lemma {:induction false} CategoriesPartition(es: seq<Entry>)
    ensures var t := TallyOf(es, 0);
      t.files + t.folders + t.links + t.others + CountIf(es, Uncategorized) == t.totalItems
  {
    if |es| > 0 {
      CategoriesPartition(es[..|es| - 1]);
    }
  }

  /** Consequently the source categories add up to at most the member count,
      and exactly to it when no member is of kind Other. */
  lemma SourceCategories(es: seq<Entry>, failed: Oracle)
    ensures var t := Run(es, failed).src;
      t.files + t.folders + t.links + t.others <= t.totalItems
    ensures (forall i :: 0 <= i < |es| ==> !es[i].kind.Other?) ==>
      var t := Run(es, failed).src;
      t.files + t.folders + t.links + t.others == t.totalItems
  {
    SourceTally(es, failed);
    CategoriesPartition(es);
    if forall i :: 0 <= i < |es| ==> !es[i].kind.Other? {
      NoneCounted(es, Uncategorized);
    }
  }

  lemma {:induction false} NoneCounted(es: seq<Entry>, p: Entry -> bool)
    requires forall i :: 0 <= i < |es| ==> !p(es[i])
    ensures CountIf(es, p) == 0
  {
    if |es| > 0 {
      NoneCounted(es[..|es| - 1], p);
    }
  }

  /** Names of the members of `es` that satisfy `p`. */
  function NamesWhere(es: seq<Entry>, p: Entry -> bool): set<string>
  {
    set i | 0 <= i < |es| && p(es[i]) :: es[i].name
  }

  lemma NamesWhereSnoc(es: seq<Entry>, p: Entry -> bool)
    requires |es| > 0
    ensures NamesWhere(es, p)
         == NamesWhere(es[..|es| - 1], p) + if p(es[|es| - 1]) then {es[|es| - 1].name} else {}
  {
    var prefix, last := es[..|es| - 1], es[|es| - 1];
    var extra := if p(last) then {last.name} else {};
    forall x | x in NamesWhere(es, p)
      ensures x in NamesWhere(prefix, p) + extra
    {
      var i :| 0 <= i < |es| && p(es[i]) && es[i].name == x;
      if i < |prefix| {
        assert prefix[i] == es[i];
      }
    }
    forall x | x in NamesWhere(prefix, p)
      ensures x in NamesWhere(es, p)
    {
      var i :| 0 <= i < |prefix| && p(prefix[i]) && prefix[i].name == x;
      assert es[i] == prefix[i];
    }
    if p(last) {
      assert last.name in NamesWhere(es, p);
    }
  }

  /** The suppressed set is exactly the names of dropped members, whatever
      the extraction outcomes; `ignored` counts those members. */
  lemma {:induction false} SuppressedAreDropped(es: seq<Entry>, failed: Oracle)
    ensures Run(es, failed).suppressed == NamesWhere(es, Dropped)
    ensures Run(es, failed).ignored == CountIf(es, Dropped)
  {
    if |es| > 0 {
      SuppressedAreDropped(es[..|es| - 1], failed);
      NamesWhereSnoc(es, Dropped);
    }
  }

  /** The link map of kind `k` (Hard or Sym) in a loop state. */
  function LinkMap(st: State, k: Kind): map<string, string>
  {
    if k.Hard? then st.hardLinks else st.symbolicLinks
  }

  /** The member is a kept link of kind `k`; such members always reach the
      destination because only regular files have content opened. */
  predicate KeptLink(m: Entry, k: Kind)
  {
    m.kind == k && KeepTarItem(m).Keep?
  }

  predicate KeptHardLink(m: Entry) { KeptLink(m, Hard) }
  predicate KeptSymLink(m: Entry) { KeptLink(m, Sym) }

  function KeptLinkOf(k: Kind): Entry -> bool
  {
    if k.Hard? then KeptHardLink else KeptSymLink
  }

  /** One step records a kept link under its original name with its
      original, unrewritten target, and touches no other link entry. */
  lemma StepLinks(st: State, i: nat, m: Entry, failed: Oracle, k: Kind)
    requires k.Hard? || k.Sym?
    ensures KeptLink(m, k) ==>
      LinkMap(Step(st, i, m, failed), k) == LinkMap(st, k)[m.name := m.linkname]
    ensures !KeptLink(m, k) ==> LinkMap(Step(st, i, m, failed), k) == LinkMap(st, k)
  {
    var st' := Step(st, i, m, failed);
    if KeepTarItem(m).Drop? {
      assert st'.hardLinks == st.hardLinks && st'.symbolicLinks == st.symbolicLinks;
    } else if m.IsFile() && failed(i) {
      assert st'.hardLinks == st.hardLinks && st'.symbolicLinks == st.symbolicLinks;
    } else {
      assert st'.hardLinks == if m.IsLnk() then st.hardLinks[m.name := m.linkname] else st.hardLinks;
      assert st'.symbolicLinks == if m.IsSym() then st.symbolicLinks[m.name := m.linkname] else st.symbolicLinks;
    }
  }

  /** A link map's keys are exactly the original names of kept links of
      that kind. */
  lemma {:induction false} LinkKeys(es: seq<Entry>, failed: Oracle, k: Kind)
    requires k.Hard? || k.Sym?
    ensures LinkMap(Run(es, failed), k).Keys == NamesWhere(es, KeptLinkOf(k))
  {
    if |es| > 0 {
      var prefix, last := es[..|es| - 1], es[|es| - 1];
      LinkKeys(prefix, failed, k);
      StepLinks(Run(prefix, failed), |prefix|, last, failed, k);
      NamesWhereSnoc(es, KeptLinkOf(k));
    }
  }

  /** Each link map records the ORIGINAL target of the last kept link of its
      kind with a given name: later members overwrite earlier ones. */
  lemma {:induction false} LinkTargetIsLast(es: seq<Entry>, failed: Oracle, k: Kind, i: nat)
    requires k.Hard? || k.Sym?
    requires i < |es| && KeptLink(es[i], k)
    requires forall j :: i < j < |es| && es[j].name == es[i].name ==> !KeptLink(es[j], k)
    ensures es[i].name in LinkMap(Run(es, failed), k)
    ensures LinkMap(Run(es, failed), k)[es[i].name] == es[i].linkname
  {
    var prefix, last := es[..|es| - 1], es[|es| - 1];
    var prev := Run(prefix, failed);
    StepLinks(prev, |prefix|, last, failed, k);
    assert Run(es, failed) == Step(prev, |prefix|, last, failed);
    var before, after := LinkMap(prev, k), LinkMap(Run(es, failed), k);
    if i == |prefix| {
      assert after == before[last.name := last.linkname];
    } else {
      LinkTargetIsLast(prefix, failed, k, i);
      assert prefix[i] == es[i];
      if KeptLink(last, k) {
        assert last.name != es[i].name;
        assert after == before[last.name := last.linkname];
      } else {
        assert after == before;
      }
    }
  }
}
