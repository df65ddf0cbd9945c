/** `from_json` for `Mount`: an ordered list of options becomes flag words and mount data. */
module MountOptions {
  import opened Octets

  /** A `uint32_t` flag word as the set of the bits it has. */
  type Bits = set<nat>

  // ----- the flags of `mount`

  const MS_RDONLY: Bits := {0}
  const MS_NOSUID: Bits := {1}
  const MS_NODEV: Bits := {2}
  const MS_NOEXEC: Bits := {3}
  const MS_SYNCHRONOUS: Bits := {4}
  const MS_REMOUNT: Bits := {5}
  const MS_MANDLOCK: Bits := {6}
  const MS_DIRSYNC: Bits := {7}
  const MS_NOSYMFOLLOW: Bits := {8}
  const MS_NOATIME: Bits := {10}
  const MS_NODIRATIME: Bits := {11}
  const MS_BIND: Bits := {12}
  const MS_REC: Bits := {14}
  const MS_SILENT: Bits := {15}
  const MS_POSIXACL: Bits := {16}
  const MS_UNBINDABLE: Bits := {17}
  const MS_PRIVATE: Bits := {18}
  const MS_SLAVE: Bits := {19}
  const MS_SHARED: Bits := {20}
  const MS_RELATIME: Bits := {21}
  const MS_I_VERSION: Bits := {23}
  const MS_STRICTATIME: Bits := {24}
  const MS_LAZYTIME: Bits := {25}

  const COPY_SYMLINK: Bits := {0}

  datatype FsType = Bind | Proc | Sysfs | Devpts | Mqueue | Tmpfs | Cgroup | Cgroup2

  const FS_TYPES: map<string, FsType> := map[
    "bind" := Bind, "proc" := Proc, "devpts" := Devpts, "mqueue" := Mqueue, "tmpfs" := Tmpfs, "sysfs" := Sysfs,
    "cgroup" := Cgroup, "cgroup2" := Cgroup2]

  /** Whether an option clears or sets bits, and which ones. */
  datatype MountFlag = MountFlag(clear: bool, flag: Bits)

  datatype Tables = Tables(options: map<string, MountFlag>, propagation: map<string, Bits>,
                           extension: map<string, MountFlag>)

  const OPTION_FLAGS: map<string, MountFlag> := map[
    "acl" := MountFlag(false, MS_POSIXACL), "async" := MountFlag(true, MS_SYNCHRONOUS),
    "atime" := MountFlag(true, MS_NOATIME), "bind" := MountFlag(false, MS_BIND),
    "defaults" := MountFlag(false, {}), "dev" := MountFlag(true, MS_NODEV),
    "diratime" := MountFlag(true, MS_NODIRATIME), "dirsync" := MountFlag(false, MS_DIRSYNC),
    "exec" := MountFlag(true, MS_NOEXEC), "iversion" := MountFlag(false, MS_I_VERSION),
    "lazytime" := MountFlag(false, MS_LAZYTIME), "loud" := MountFlag(true, MS_SILENT),
    "mand" := MountFlag(false, MS_MANDLOCK), "noacl" := MountFlag(true, MS_POSIXACL),
    "noatime" := MountFlag(false, MS_NOATIME), "nodev" := MountFlag(false, MS_NODEV),
    "nodiratime" := MountFlag(false, MS_NODIRATIME), "noexec" := MountFlag(false, MS_NOEXEC),
    "noiversion" := MountFlag(true, MS_I_VERSION), "nolazytime" := MountFlag(true, MS_LAZYTIME),
    "nomand" := MountFlag(true, MS_MANDLOCK), "norelatime" := MountFlag(true, MS_RELATIME),
    "nostrictatime" := MountFlag(true, MS_STRICTATIME), "nosuid" := MountFlag(false, MS_NOSUID),
    "nosymfollow" := MountFlag(false, MS_NOSYMFOLLOW), "rbind" := MountFlag(false, MS_BIND + MS_REC),
    "relatime" := MountFlag(false, MS_RELATIME), "remount" := MountFlag(false, MS_REMOUNT),
    "ro" := MountFlag(false, MS_RDONLY), "rw" := MountFlag(true, MS_RDONLY),
    "silent" := MountFlag(false, MS_SILENT), "strictatime" := MountFlag(false, MS_STRICTATIME),
    "suid" := MountFlag(true, MS_NOSUID), "sync" := MountFlag(false, MS_SYNCHRONOUS)]

  const PROPAGATION_FLAGS: map<string, Bits> := map[
    "rprivate" := MS_PRIVATE + MS_REC, "private" := MS_PRIVATE, "rslave" := MS_SLAVE + MS_REC, "slave" := MS_SLAVE,
    "rshared" := MS_SHARED + MS_REC, "shared" := MS_SHARED, "runbindable" := MS_UNBINDABLE + MS_REC,
    "unbindable" := MS_UNBINDABLE]

  const EXTENSION_FLAGS: map<string, MountFlag> := map["copy-symlink" := MountFlag(false, COPY_SYMLINK)]

  const LINUX: Tables := Tables(OPTION_FLAGS, PROPAGATION_FLAGS, EXTENSION_FLAGS)

  // ----- the meaning of a list of options

  /** What an option is taken for. */
  datatype Class = Flag(change: MountFlag) | Propagation(flag: Bits) | Extension(change: MountFlag) | Data

  function Classify(t: Tables, opt: string): Class {
    if opt in t.options && t.options[opt].flag != {} then Flag(t.options[opt])
    else if opt in t.propagation then Propagation(t.propagation[opt])
    else if opt in t.extension then Extension(t.extension[opt])
    else Data
  }

  function Change(word: Bits, c: MountFlag): Bits {
    if c.clear then word - c.flag else word + c.flag
  }

  /** The three flag words and the mount data. */
  datatype Words = Words(flags: Bits, propagation: Bits, extension: Bits, data: seq<string>)

  function Step(w: Words, c: Class, opt: string): Words {
    match c
    case Flag(change) => w.(flags := Change(w.flags, change))
    case Propagation(flag) => w.(propagation := w.propagation + flag)
    case Extension(change) => w.(extension := Change(w.extension, change))
    case Data => w.(data := w.data + [opt])
  }

  /** All options in their order. */
  function Parse(t: Tables, start: Words, options: seq<string>): Words {
    if options == [] then start
    else
      var n := |options| - 1;
      Step(Parse(t, start, options[..n]), Classify(t, options[n]), options[n])
  }

  /** The change of the flag word, or of the extension word, that option `i` asks for. */
  function Asks(t: Tables, options: seq<string>, i: nat, extension: bool): Option<MountFlag>
    requires i < |options|
  {
    match Classify(t, options[i])
    case Flag(c) => if extension then None else Some(c)
    case Extension(c) => if extension then Some(c) else None
    case _ => None
  }

  /** Option `i` is the last one that touches `bit`. */
  ghost predicate TouchesLast(t: Tables, options: seq<string>, extension: bool, bit: nat, i: nat) {
    && i < |options| && Asks(t, options, i, extension).Some? && bit in Asks(t, options, i, extension).value.flag
    && forall k :: i < k < |options| && Asks(t, options, k, extension).Some? ==>
         bit !in Asks(t, options, k, extension).value.flag
  }

  function WordOf(w: Words, extension: bool): Bits {
    if extension then w.extension else w.flags
  }

  /** A bit of the flag words is as the last option that touches it says, and as before when none does. */
  lemma {:induction false} LastOptionWins(t: Tables, start: Words, options: seq<string>, extension: bool, bit: nat)
    ensures forall i :: TouchesLast(t, options, extension, bit, i) ==>
      (bit in WordOf(Parse(t, start, options), extension) <==> !Asks(t, options, i, extension).value.clear)
    ensures (forall i :: !TouchesLast(t, options, extension, bit, i)) ==>
      (bit in WordOf(Parse(t, start, options), extension) <==> bit in WordOf(start, extension))
    decreases |options|
  {
    if options != [] {
      var n := |options| - 1;
      var before := options[..n];
      LastOptionWins(t, start, before, extension, bit);
      forall i: nat | i < n
        ensures Asks(t, options, i, extension) == Asks(t, before, i, extension)
      {
      }
      var c := Asks(t, options, n, extension);
      if c.Some? && bit in c.value.flag {
        assert TouchesLast(t, options, extension, bit, n);
      } else {
        forall i: nat
          ensures TouchesLast(t, options, extension, bit, i) <==> TouchesLast(t, before, extension, bit, i)
        {
        }
      }
    }
  }

  /** The propagation flags are the union of those named. */
  lemma {:induction false} PropagationUnion(t: Tables, start: Words, options: seq<string>, bit: nat)
    ensures bit in Parse(t, start, options).propagation <==>
            || bit in start.propagation
            || exists i :: 0 <= i < |options| && Names(t, options[i], bit)
    decreases |options|
  {
    if options != [] {
      var n := |options| - 1;
      PropagationUnion(t, start, options[..n], bit);
      assert forall i :: 0 <= i < n ==> options[..n][i] == options[i];
      if Names(t, options[n], bit) {
        assert bit in Parse(t, start, options).propagation;
      }
    }
  }

  /** The option names a propagation flag with that bit. */
  predicate Names(t: Tables, opt: string, bit: nat) {
    Classify(t, opt).Propagation? && bit in Classify(t, opt).flag
  }

  /** The options that are neither flags nor propagation flags nor extensions, in their order. */
  function Rest(t: Tables, options: seq<string>): seq<string> {
    if options == [] then []
    else (if Classify(t, options[0]).Data? then [options[0]] else []) + Rest(t, options[1..])
  }

  lemma {:induction false} RestConcat(t: Tables, a: seq<string>, b: seq<string>)
    ensures Rest(t, a + b) == Rest(t, a) + Rest(t, b)
  {
    if a == [] {
      assert a + b == b;
    } else {
      assert (a + b)[1..] == a[1..] + b;
      RestConcat(t, a[1..], b);
    }
  }

  /** The mount data is exactly the remaining options in their order. */
  lemma {:induction false} DataIsRest(t: Tables, start: Words, options: seq<string>)
    ensures Parse(t, start, options).data == start.data + Rest(t, options)
    decreases |options|
  {
    if options != [] {
      var n := |options| - 1;
      DataIsRest(t, start, options[..n]);
      RestConcat(t, options[..n], [options[n]]);
      assert options == options[..n] + [options[n]];
    }
  }

  /** An option without flags in the table is mount data. */
  lemma DefaultsAreData()
    ensures Classify(LINUX, "defaults").Data?
  {
    assert OPTION_FLAGS["defaults"].flag == {};
  }

  // ----- as it runs

  class Mount {
    var destination: string
    var fsName: string
    var source: string
    var data: seq<string>
    var fsType: FsType
    var flags: Bits
    var propagationFlags: Bits
    var extensionFlags: Bits

    constructor ()
      ensures flags == {} && propagationFlags == {} && extensionFlags == {}
    {
      destination, fsName, source, data, fsType := "", "", "", [], Bind;
      flags, propagationFlags, extensionFlags := {}, {}, {};
    }

    ghost function State(): Words
      reads this
    {
      Words(flags, propagationFlags, extensionFlags, data)
    }

    /** `from_json` with the fields it finds; a missing list of options is an empty one. */
    method FromJson(destination: string, fsName: string, source: string, options: Option<seq<string>>)
      requires fsName in FS_TYPES
      modifies this
      ensures this.destination == destination && this.fsName == fsName && this.source == source
      ensures fsType == FS_TYPES[fsName]
      ensures State() == Parse(LINUX, Words(if fsType == Bind then MS_BIND else old(flags), old(propagationFlags),
                                            old(extensionFlags), []),
                               if options.Some? then options.value else [])
    {
      this.destination, this.fsName, this.source := destination, fsName, source;
      fsType := FS_TYPES[fsName];
      if fsType == Bind {
        flags := MS_BIND;
      }
      data := [];
      ParseOptions(LINUX, if options.Some? then options.value else []);
    }

    method ParseOptions(t: Tables, options: seq<string>)
      modifies this`flags, this`propagationFlags, this`extensionFlags, this`data
      ensures State() == Parse(t, old(State()), options)
    {
      for i := 0 to |options|
        invariant State() == Parse(t, old(State()), options[..i])
      {
        var opt := options[i];
        assert options[..i + 1][..i] == options[..i];
        if opt in t.options && t.options[opt].flag != {} {
          if t.options[opt].clear {
            flags := flags - t.options[opt].flag;
          } else {
            flags := flags + t.options[opt].flag;
          }
        } else if opt in t.propagation {
          propagationFlags := propagationFlags + t.propagation[opt];
        } else if opt in t.extension {
          if t.extension[opt].clear {
            extensionFlags := extensionFlags - t.extension[opt].flag;
          } else {
            extensionFlags := extensionFlags + t.extension[opt].flag;
          }
        } else {
          data := data + [opt];
        }
      }
      assert options[..|options|] == options;
    }
  }
}
