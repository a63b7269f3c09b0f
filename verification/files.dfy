/**
 * The part of the file system the request handlers touch: which paths exist,
 * which of them are regular files and what they hold, and which paths fail
 * on access (permissions, device errors).
 */
module Files {
  import opened Wrappers
  import opened Bytes

  /** An absolute path, as its list of components. */
  type Path = seq<Bytes>

  datatype Node = File(contents: Bytes) | Directory

  class FileSystem {
    var entries: map<Path, Node>
    /** Paths on which reading, writing or removing fails. */
    const faulty: set<Path>

    constructor (entries: map<Path, Node>, faulty: set<Path>)
      ensures this.entries == entries && this.faulty == faulty
    {
      this.entries := entries;
      this.faulty := faulty;
    }

    /** `fs::read`: the contents of a readable regular file. */
    method Read(p: Path) returns (r: Option<Bytes>)
      ensures r == ReadFile(entries, faulty, p)
    {
      if p in entries && entries[p].File? && p !in faulty {
        r := Some(entries[p].contents);
      } else {
        r := None;
      }
    }

    /** `fs::write`: replaces the contents of `p`; fails on a directory or a faulty path. */
    method Write(p: Path, data: Bytes) returns (ok: bool)
      modifies this`entries
      ensures ok == CanWrite(old(entries), faulty, p)
      ensures entries == if ok then old(entries)[p := File(data)] else old(entries)
    {
      ok := CanWrite(entries, faulty, p);
      if ok {
        entries := entries[p := File(data)];
      }
    }

    /** `fs::remove_file`: removes a regular file; fails on anything else or a faulty path. */
    method Remove(p: Path) returns (ok: bool)
      modifies this`entries
      ensures ok == (IsFile(old(entries), p) && p !in faulty)
      ensures entries == if ok then old(entries) - {p} else old(entries)
    {
      ok := IsFile(entries, p) && p !in faulty;
      if ok {
        entries := entries - {p};
      }
    }
  }

  /** `Path::is_file`. */
  predicate IsFile(entries: map<Path, Node>, p: Path) {
    p in entries && entries[p].File?
  }

  function ReadFile(entries: map<Path, Node>, faulty: set<Path>, p: Path): (r: Option<Bytes>)
    ensures r.Some? <==> IsFile(entries, p) && p !in faulty
    ensures r.Some? ==> r.value == entries[p].contents
  {
    if IsFile(entries, p) && p !in faulty then Some(entries[p].contents) else None
  }

  /** After a successful write the path reads back as the data, and no other path reads differently. */
  lemma WriteThenRead(entries: map<Path, Node>, faulty: set<Path>, p: Path, data: Bytes, q: Path)
    requires CanWrite(entries, faulty, p)
    ensures ReadFile(entries[p := File(data)], faulty, p) == Some(data)
    ensures q != p ==> ReadFile(entries[p := File(data)], faulty, q) == ReadFile(entries, faulty, q)
  {
  }

  /** After a successful remove the path no longer reads, and no other path reads differently. */
  lemma RemoveThenRead(entries: map<Path, Node>, faulty: set<Path>, p: Path, q: Path)
    requires IsFile(entries, p) && p !in faulty
    ensures ReadFile(entries - {p}, faulty, p) == None
    ensures q != p ==> ReadFile(entries - {p}, faulty, q) == ReadFile(entries, faulty, q)
  {
  }

  predicate CanWrite(entries: map<Path, Node>, faulty: set<Path>, p: Path) {
    p !in faulty && !(p in entries && entries[p].Directory?)
  }
}
