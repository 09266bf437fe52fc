/** The per-member keep/rename rule: a member survives when its name has a
    leading directory and the rest of the name is not a backup file; the
    survivor is renamed to that rest. */
module Classifier {
  import opened Strings
  import opened TarEntry

  datatype Decision = Drop | Keep(entry: Entry)

  /** Extension point for dropping whole folders; no folder is useless yet. */
  predicate UselessFolder(name: string)
  {
    false
  }

  /** Backup and merge leftovers, judged on the renamed path. */
  predicate UselessFile(name: string)
  {
    EndsWith(name, ".bak") || EndsWith(name, ".orig")
  }

  /** Member name with its leading directory (through the first `/`) cut. */
  function StripTop(name: string): string
  {
    DropThrough(name, '/')
  }

  /** Classifies one source header. A name without `/` is dropped; a kept
      header comes back as a copy that differs only in its name, and the new
      name is never a backup file. */
  function KeepTarItem(m: Entry): (d: Decision)
    ensures '/' !in m.name ==> d.Drop?
    ensures d.Keep? ==> d.entry == m.(name := d.entry.name)
    ensures d.Keep? ==> !UselessFile(d.entry.name)
  {
    var sepos := Find(m.name, '/');
    if sepos == -1 then Drop
    else
      var name := m.name[sepos + 1..];
      if UselessFolder(name) then Drop
      else if UselessFile(name) then Drop
      else Keep(m.(name := name))
  }

  /** A kept name is the original minus a leading `/`-free segment and
      that `/`. */
  lemma KeptNameSplit(m: Entry)
    requires KeepTarItem(m).Keep?
    ensures |KeepTarItem(m).entry.name| < |m.name|
    ensures var n := KeepTarItem(m).entry.name; var k := |m.name| - |n| - 1;
      m.name == m.name[..k] + "/" + n && '/' !in m.name[..k]
  {
  }

  /** The converse of KeepTarItem's contract: for a name split at its first
      `/`, the decision depends only on the part after it, and the folder
      hook never drops anything. */
  lemma KeepRule(m: Entry, prefix: string, rest: string)
    requires m.name == prefix + "/" + rest && '/' !in prefix
    ensures UselessFile(rest) ==> KeepTarItem(m) == Drop
    ensures !UselessFile(rest) ==> KeepTarItem(m) == Keep(m.(name := rest))
  {
    SplitAtFirst(prefix, '/', rest);
  }

  /** The keep rule as one equivalence: a header is kept exactly when its
      name has a `/` and the name after the first `/` is no backup file. */
  lemma KeepIff(m: Entry)
    ensures KeepTarItem(m).Keep? <==> '/' in m.name && !UselessFile(StripTop(m.name))
    ensures KeepTarItem(m).Keep? ==> KeepTarItem(m).entry.name == StripTop(m.name)
  {
  }

  /** The new name is a suffix of the old one with exactly one `/` fewer. */
  lemma NewNameSlashes(m: Entry)
    requires KeepTarItem(m).Keep?
    ensures EndsWith(m.name, KeepTarItem(m).entry.name)
    ensures Occurrences(KeepTarItem(m).entry.name, '/') == Occurrences(m.name, '/') - 1
  {
    DropThroughOccurrences(m.name, '/');
  }

  /** Filtering a filtered name again is not idempotent: a survivor whose
      original name had a single `/` has none left, so a second pass drops
      it. */
  lemma SecondPassDropsTopLevel(m: Entry)
    requires KeepTarItem(m).Keep?
    requires Occurrences(m.name, '/') == 1
    ensures KeepTarItem(KeepTarItem(m).entry).Drop?
  {
    var n := KeepTarItem(m).entry;
    NewNameSlashes(m);
    if '/' in n.name {
      OccurrencesPresent(n.name, '/');
    }
  }

  /** A survivor that still has a `/` is renamed again by a second pass
      unless its twice-stripped name is a backup file. */
  lemma SecondPassStripsAgain(m: Entry)
    requires KeepTarItem(m).Keep?
    requires '/' in KeepTarItem(m).entry.name
    requires !UselessFile(StripTop(KeepTarItem(m).entry.name))
    ensures KeepTarItem(KeepTarItem(m).entry)
         == Keep(m.(name := StripTop(KeepTarItem(m).entry.name)))
  {
  }
}
