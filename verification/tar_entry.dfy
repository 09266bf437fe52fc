/** One archive member header, as the filter reads and writes it. */
module TarEntry {

  /** Member type. `Regular` covers every type the archive library reports
      as a regular file; `Other` is whatever falls in none of the named
      categories. */
  datatype Kind = Regular | Dir | Sym | Hard | Chr | Blk | Fifo | Other

  datatype Entry = Entry(
    name: string,
    size: nat,
    mtime: int,
    mode: nat,
    kind: Kind,
    linkname: string,
    uid: nat,
    gid: nat,
    uname: string,
    gname: string,
    paxHeaders: map<string, string>)
  {
    predicate IsFile() { kind.Regular? }
    predicate IsDir() { kind.Dir? }
    predicate IsSym() { kind.Sym? }
    predicate IsLnk() { kind.Hard? }
    /** Character device, block device or FIFO. */
    predicate IsDev() { kind.Chr? || kind.Blk? || kind.Fifo? }
  }

  /** Name of the synthetic report member appended to every destination. */
  const ReportName: string := "preptar.json"

  /** Permission bits of a freshly built header (octal 644). */
  const DefaultMode: nat := 0x1A4

  /** A fresh header for the report member holding `size` bytes: every field
      but the name and size keeps its default. */
  function ReportEntry(size: nat): Entry
  {
    Entry(ReportName, size, 0, DefaultMode, Regular, "", 0, 0, "", "", map[])
  }
}
