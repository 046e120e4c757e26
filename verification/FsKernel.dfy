/** The kernel under the rooted filesystem: descriptors that stand at places of the exported tree, and calls that may
    answer anything. */
module FsKernel {
  import opened Bytes
  import opened FsPath
  import opened FsList

  /** A place in the exported tree: the names from the root down. */
  type Position = seq<seq<byte>>

  datatype FileKind = Regular | Folder | Special

  /** What stat tells: the kind of the object, and the mode bits of which the protocol sends the lowest nine. */
  datatype FileInfo = FileInfo(kind: FileKind, size: int, mode: nat, modified: int)

  /** How a leaf is opened. */
  datatype OpenMode = Reading | Writing(create: bool, truncate: bool)

  /** A call that may modify the exported tree, with the places it names and whether it succeeded. */
  datatype Change =
    | Opened(place: Position, mode: OpenMode, ok: bool)
    | Wrote(place: Position, offset: u32, data: seq<byte>, ok: bool)
    | Made(place: Position, ok: bool)
    | Removed(place: Position, folder: bool, ok: bool)
    | Renamed(from: Position, to: Position, ok: bool)

  /** The places the call names are strict descendants of the root. */
  predicate BelowRoot(c: Change)
  {
    if c.Renamed? then c.from != [] && c.to != [] else c.place != []
  }

  /** What a successful call told about the place it was made on. */
  datatype Answer =
    | Statted(place: Position, info: FileInfo)
    | Gave(place: Position, offset: nat, wanted: nat, data: seq<byte>)
    | Took(place: Position, count: nat)

  /** The calls that can fail. */
  datatype CallName = Dups | Opens(mode: OpenMode) | Lists | Stats | Makes | Removes | Renames | Reads | Writes

  datatype Failure = Failure(call: CallName, errno: Errno)

  /** The process's descriptors and the calls on them. Every call may fail with any errno; successful calls return
      any legal result. `touched` lists the places named to the kernel, `changes` the calls that may modify the
      tree, `answers` what stat, read and write calls told, and `failure` is the last call that failed and its errno. */
  class Kernel {
    var table: map<int, Position>
    var counter: nat
    var errno: Errno
    ghost var failure: Failure
    ghost var touched: seq<Position>
    ghost var changes: seq<Change>
    ghost var answers: seq<Answer>

    /** Descriptors are numbered, and nothing that may modify the tree was ever asked of the root itself. */
    ghost predicate Valid()
      reads this
    {
      (forall fd | fd in table :: 0 <= fd < counter) && forall i | 0 <= i < |changes| :: BelowRoot(changes[i])
    }

    /** Any call on open descriptors; when it fails, errno says why. */
    method Call(name: CallName) returns (ok: bool)
      modifies this`errno, this`failure
      ensures !ok ==> failure == Failure(name, errno)
    {
      ok := *;
      if !ok {
        errno := *;
        failure := Failure(name, errno);
      }
    }

    method Dup(fd: int) returns (r: int)
      requires Valid() && fd in table
      modifies this`table, this`counter, this`errno, this`failure
      ensures Valid() && -1 <= r
      ensures r < 0 ==> table == old(table) && failure == Failure(Dups, errno)
      ensures r >= 0 ==> r !in old(table) && table == old(table)[r := old(table)[fd]]
    {
      var ok := Call(Dups);
      if !ok {
        return -1;
      }
      r, counter := counter, counter + 1;
      table := table[r := table[fd]];
    }

    /** openat with O_NOFOLLOW: a good name opens a child of the directory, or nothing. */
    method OpenAt(dir: int, name: seq<byte>, mode: OpenMode) returns (r: int)
      requires Valid() && dir in table && GoodName(name)
      modifies this
      ensures Valid() && -1 <= r
      ensures r < 0 ==> table == old(table) && failure == Failure(Opens(mode), errno)
      ensures r >= 0 ==> r !in old(table) && table == old(table)[r := old(table)[dir] + [name]]
      ensures touched == old(touched) + [old(table)[dir] + [name]]
      ensures changes == old(changes) + Opening(old(table)[dir] + [name], mode, r >= 0) && answers == old(answers)
    {
      touched := touched + [table[dir] + [name]];
      var ok := Call(Opens(mode));
      changes := changes + Opening(table[dir] + [name], mode, ok);
      if !ok {
        return -1;
      }
      r, counter := counter, counter + 1;
      table := table[r := table[dir] + [name]];
    }

    /** close: takes the descriptor out of the table; errno may be anything afterwards. */
    method Close(fd: int)
      requires Valid() && fd in table
      modifies this`table, this`errno
      ensures Valid() && table == old(table) - {fd}
    {
      table := table - {fd};
      errno := *;
    }

    method FStat(fd: int) returns (ok: bool, info: FileInfo)
      requires fd in table
      modifies this`errno, this`failure, this`answers
      ensures !ok ==> failure == Failure(Stats, errno)
      ensures answers == if ok then old(answers) + [Statted(table[fd], info)] else old(answers)
    {
      ok := Call(Stats);
      info := *;
      if ok {
        answers := answers + [Statted(table[fd], info)];
      }
    }

    method FStatAt(dir: int, name: seq<byte>) returns (ok: bool, info: FileInfo)
      requires dir in table && GoodName(name)
      modifies this`errno, this`failure, this`touched, this`answers
      ensures !ok ==> failure == Failure(Stats, errno)
      ensures touched == old(touched) + [table[dir] + [name]]
      ensures answers == if ok then old(answers) + [Statted(table[dir] + [name], info)] else old(answers)
    {
      touched := touched + [table[dir] + [name]];
      ok := Call(Stats);
      info := *;
      if ok {
        answers := answers + [Statted(table[dir] + [name], info)];
      }
    }

    method MkdirAt(dir: int, name: seq<byte>) returns (ok: bool)
      requires Valid() && dir in table && GoodName(name)
      modifies this`errno, this`failure, this`touched, this`changes
      ensures Valid()
      ensures !ok ==> failure == Failure(Makes, errno)
      ensures touched == old(touched) + [table[dir] + [name]]
      ensures changes == old(changes) + [Made(table[dir] + [name], ok)]
    {
      ok := Call(Makes);
      touched, changes := touched + [table[dir] + [name]], changes + [Made(table[dir] + [name], ok)];
    }

    method UnlinkAt(dir: int, name: seq<byte>, folder: bool) returns (ok: bool)
      requires Valid() && dir in table && GoodName(name)
      modifies this`errno, this`failure, this`touched, this`changes
      ensures Valid()
      ensures !ok ==> failure == Failure(Removes, errno)
      ensures touched == old(touched) + [table[dir] + [name]]
      ensures changes == old(changes) + [Removed(table[dir] + [name], folder, ok)]
    {
      ok := Call(Removes);
      touched, changes := touched + [table[dir] + [name]], changes + [Removed(table[dir] + [name], folder, ok)];
    }

    method RenameAt(dir: int, name: seq<byte>, newDir: int, newName: seq<byte>) returns (ok: bool)
      requires Valid() && dir in table && GoodName(name) && newDir in table && GoodName(newName)
      modifies this`errno, this`failure, this`touched, this`changes
      ensures Valid()
      ensures !ok ==> failure == Failure(Renames, errno)
      ensures touched == old(touched) + [table[dir] + [name]] + [table[newDir] + [newName]]
      ensures changes == old(changes) + [Renamed(table[dir] + [name], table[newDir] + [newName], ok)]
    {
      ok := Call(Renames);
      touched := touched + [table[dir] + [name]] + [table[newDir] + [newName]];
      changes := changes + [Renamed(table[dir] + [name], table[newDir] + [newName], ok)];
    }

    /** pread: at most the bytes asked for. */
    method PRead(fd: int, count: nat, offset: nat) returns (ok: bool, data: seq<byte>)
      requires fd in table
      modifies this`errno, this`failure, this`answers
      ensures !ok ==> failure == Failure(Reads, errno)
      ensures |data| <= count
      ensures answers == if ok then old(answers) + [Gave(table[fd], offset, count, data)] else old(answers)
    {
      ok := Call(Reads);
      data := *;
      if |data| > count {
        data := data[..count];
      }
      if ok {
        answers := answers + [Gave(table[fd], offset, count, data)];
      }
    }

    /** pwrite: at most the bytes given. */
    method PWrite(fd: int, data: seq<byte>, offset: u32) returns (ok: bool, count: nat)
      requires Valid() && fd in table && table[fd] != []
      modifies this`errno, this`failure, this`changes, this`answers
      ensures Valid()
      ensures !ok ==> failure == Failure(Writes, errno)
      ensures count <= |data|
      ensures changes == old(changes) + [Wrote(table[fd], offset, data, ok)]
      ensures answers == if ok then old(answers) + [Took(table[fd], count)] else old(answers)
    {
      ok := Call(Writes);
      changes := changes + [Wrote(table[fd], offset, data, ok)];
      count := *;
      if count > |data| {
        count := |data|;
      }
      if ok {
        answers := answers + [Took(table[fd], count)];
      }
    }
  }

  /** What opening a leaf may modify. */
  function Opening(place: Position, mode: OpenMode, ok: bool): seq<Change>
  {
    if mode.Reading? then [] else [Opened(place, mode, ok)]
  }
}
