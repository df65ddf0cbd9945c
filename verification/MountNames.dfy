/** What the mount options mean, by their names and by the bits of the flag words, as mount(2) and mount(8) have
    them. Nothing here names the tables of `from_json`; the theorems say that its loop does exactly this. */
module MountNames {
  import opened MountOptions

  /** The options that set a bit of the flags, among them `MS_RDONLY`, bit 0, and `MS_BIND`, bit 12. */
  function Setting(bit: nat): set<string> {
    match bit
    case 0 => {"ro"}
    case 1 => {"nosuid"}
    case 2 => {"nodev"}
    case 3 => {"noexec"}
    case 4 => {"sync"}
    case 5 => {"remount"}
    case 6 => {"mand"}
    case 7 => {"dirsync"}
    case 8 => {"nosymfollow"}
    case 10 => {"noatime"}
    case 11 => {"nodiratime"}
    case 12 => {"bind", "rbind"}
    case 14 => {"rbind"}
    case 15 => {"silent"}
    case 16 => {"acl"}
    case 21 => {"relatime"}
    case 23 => {"iversion"}
    case 24 => {"strictatime"}
    case 25 => {"lazytime"}
    case _ => {}
  }

  /** The options that clear it. */
  function Clearing(bit: nat): set<string> {
    match bit
    case 0 => {"rw"}
    case 1 => {"suid"}
    case 2 => {"dev"}
    case 3 => {"exec"}
    case 4 => {"async"}
    case 6 => {"nomand"}
    case 10 => {"atime"}
    case 11 => {"diratime"}
    case 15 => {"loud"}
    case 16 => {"noacl"}
    case 21 => {"norelatime"}
    case 23 => {"noiversion"}
    case 24 => {"nostrictatime"}
    case 25 => {"nolazytime"}
    case _ => {}
  }

  /** The options that name a bit of the propagation flags. */
  function Spreading(bit: nat): set<string> {
    match bit
    case 14 => {"rprivate", "rslave", "rshared", "runbindable"}
    case 17 => {"unbindable", "runbindable"}
    case 18 => {"private", "rprivate"}
    case 19 => {"slave", "rslave"}
    case 20 => {"shared", "rshared"}
    case _ => {}
  }

  const COPYING: string := "copy-symlink"

  /** The option stands for a flag of some kind. */
  ghost predicate Known(opt: string) {
    opt == COPYING || exists bit :: Concerns(opt, bit)
  }

  predicate Concerns(opt: string, bit: nat) {
    opt in Setting(bit) || opt in Clearing(bit) || opt in Spreading(bit)
  }

  /** Option `i` is the last one of these names. */
  ghost predicate LastOf(options: seq<string>, names: set<string>, i: nat) {
    i < |options| && options[i] in names && forall k :: i < k < |options| ==> options[k] !in names
  }

  // ----- the theorems

  /** A bit of the flags is set if and only if the last option that sets or clears it is one that sets it, and it
      is as before when there is none. */
  lemma FlagByName(start: Words, options: seq<string>, bit: nat)
    ensures forall i: nat :: LastOf(options, Setting(bit) + Clearing(bit), i) ==>
              (bit in Parse(LINUX, start, options).flags <==> options[i] in Setting(bit))
    ensures (forall i: nat :: !LastOf(options, Setting(bit) + Clearing(bit), i)) ==>
              (bit in Parse(LINUX, start, options).flags <==> bit in start.flags)
  {
    var names := Setting(bit) + Clearing(bit);
    AllTouch(options, bit);
    forall i: nat
      ensures LastOf(options, names, i) <==> TouchesLast(LINUX, options, false, bit, i)
    {
      LastTouch(options, bit, i);
    }
    LastOptionWins(LINUX, start, options, false, bit);
  }

  lemma LastTouch(options: seq<string>, bit: nat, i: nat)
    requires forall k: nat :: k < |options| ==>
      (Asked(options, k, bit) <==> options[k] in Setting(bit) + Clearing(bit))
    ensures LastOf(options, Setting(bit) + Clearing(bit), i) <==> TouchesLast(LINUX, options, false, bit, i)
  {
    if LastOf(options, Setting(bit) + Clearing(bit), i) {
      assert Asked(options, i, bit);
      forall k: nat | i < k < |options|
        ensures !Asked(options, k, bit)
      {
      }
    }
    if TouchesLast(LINUX, options, false, bit, i) {
      assert Asked(options, i, bit);
      forall k: nat | i < k < |options|
        ensures options[k] !in Setting(bit) + Clearing(bit)
      {
        assert !Asked(options, k, bit);
      }
    }
  }

  /** Option `k` asks for a change of the bit. */
  predicate Asked(options: seq<string>, k: nat, bit: nat)
    requires k < |options|
  {
    Asks(LINUX, options, k, false).Some? && bit in Asks(LINUX, options, k, false).value.flag
  }

  /** A bit of the propagation flags is set if and only if it was before or an option names it. */
  lemma PropagationByName(start: Words, options: seq<string>, bit: nat)
    ensures bit in Parse(LINUX, start, options).propagation <==>
            bit in start.propagation || exists i :: 0 <= i < |options| && options[i] in Spreading(bit)
  {
    PropagationUnion(LINUX, start, options, bit);
    forall i | 0 <= i < |options|
      ensures Names(LINUX, options[i], bit) <==> options[i] in Spreading(bit)
    {
      Spreads(options[i], bit);
    }
  }

  /** The extension word has its bit 0 if and only if it had it before or the option is there. */
  lemma {:induction false} ExtensionByName(start: Words, options: seq<string>, bit: nat)
    ensures bit in Parse(LINUX, start, options).extension <==>
            bit in start.extension || (bit == 0 && COPYING in options)
    decreases |options|
  {
    if options != [] {
      var n := |options| - 1;
      ExtensionByName(start, options[..n], bit);
      Copies(options[n]);
      assert options == options[..n] + [options[n]];
    }
  }

  /** What stands for no flag is mount data. */
  lemma DataByName(opt: string)
    ensures Classify(LINUX, opt).Data? <==> !Known(opt)
  {
    var c := Classify(LINUX, opt);
    Copies(opt);
    FlagsNotEmpty(opt);
    if c.Flag? {
      var bit :| bit in c.change.flag;
      Touch(opt, bit);
      assert Concerns(opt, bit);
    } else if c.Propagation? {
      var bit :| bit in c.flag;
      Spreads(opt, bit);
      assert Concerns(opt, bit);
    } else if c.Data? && exists bit :: Concerns(opt, bit) {
      var bit :| Concerns(opt, bit);
      Touch(opt, bit);
      Spreads(opt, bit);
    }
  }

  // ----- each option

  /** The option sets or clears the bit. */
  predicate Touches(opt: string, bit: nat, clear: bool) {
    var c := Classify(LINUX, opt);
    c.Flag? && bit in c.change.flag && c.change.clear == clear
  }

  lemma AllTouch(options: seq<string>, bit: nat)
    ensures forall k: nat :: k < |options| ==>
      && (Asked(options, k, bit) <==> options[k] in Setting(bit) + Clearing(bit))
      && (Asked(options, k, bit) ==>
          (Asks(LINUX, options, k, false).value.clear <==> options[k] !in Setting(bit)))
  {
    forall k: nat | k < |options|
      ensures Asked(options, k, bit) <==> options[k] in Setting(bit) + Clearing(bit)
      ensures Asked(options, k, bit) ==>
                (Asks(LINUX, options, k, false).value.clear <==> options[k] !in Setting(bit))
    {
      Touch(options[k], bit);
    }
  }

  lemma Touch(opt: string, bit: nat)
    ensures Touches(opt, bit, false) <==> opt in Setting(bit)
    ensures Touches(opt, bit, true) <==> opt in Clearing(bit)
  {
    if Group0(opt) {
      Touch0(opt, bit);
    } else if Group1(opt) {
      Touch1(opt, bit);
    } else if Group2(opt) {
      Touch2(opt, bit);
    } else if Group3(opt) {
      Touch3(opt, bit);
    } else if Group4(opt) {
      Touch4(opt, bit);
    } else if Group5(opt) {
      Touch5(opt, bit);
    } else if Group6(opt) {
      Touch6(opt, bit);
    } else if Group7(opt) {
      Touch7(opt, bit);
    } else if Group8(opt) {
      Touch8(opt, bit);
    } else {
      Others(opt, bit);
    }
  }

  /** The entry of an option in the table, and the bits it has by its name. */
  predicate Means(opt: string, clear: bool, flag: set<nat>, bit: nat) {
    && opt in OPTION_FLAGS && OPTION_FLAGS[opt] == MountFlag(clear, flag) && flag != {}
    && (opt in Setting(bit) <==> !clear && bit in flag)
    && (opt in Clearing(bit) <==> clear && bit in flag)
  }

  predicate Group0(opt: string) {
    opt == "acl" || opt == "async" || opt == "atime" || opt == "bind"
  }

  lemma Touch0(opt: string, bit: nat)
    requires Group0(opt)
    ensures opt in OPTION_FLAGS && Means(opt, OPTION_FLAGS[opt].clear, OPTION_FLAGS[opt].flag, bit)
  {
    Entries0();
    Bits0(bit);
  }

  lemma Entries0()
    ensures "acl" in OPTION_FLAGS && OPTION_FLAGS["acl"] == MountFlag(false, {16})
    ensures "async" in OPTION_FLAGS && OPTION_FLAGS["async"] == MountFlag(true, {4})
    ensures "atime" in OPTION_FLAGS && OPTION_FLAGS["atime"] == MountFlag(true, {10})
    ensures "bind" in OPTION_FLAGS && OPTION_FLAGS["bind"] == MountFlag(false, {12})
  {
  }

  lemma Bits0(bit: nat)
    ensures ("acl" in Setting(bit) <==> bit in {16}) && ("acl" in Clearing(bit) <==> false)
    ensures ("async" in Setting(bit) <==> false) && ("async" in Clearing(bit) <==> bit in {4})
    ensures ("atime" in Setting(bit) <==> false) && ("atime" in Clearing(bit) <==> bit in {10})
    ensures ("bind" in Setting(bit) <==> bit in {12}) && ("bind" in Clearing(bit) <==> false)
  {
  }

  predicate Group1(opt: string) {
    opt == "dev" || opt == "diratime" || opt == "dirsync" || opt == "exec"
  }

  lemma Touch1(opt: string, bit: nat)
    requires Group1(opt)
    ensures opt in OPTION_FLAGS && Means(opt, OPTION_FLAGS[opt].clear, OPTION_FLAGS[opt].flag, bit)
  {
    Entries1();
    Bits1(bit);
  }

  lemma Entries1()
    ensures "dev" in OPTION_FLAGS && OPTION_FLAGS["dev"] == MountFlag(true, {2})
    ensures "diratime" in OPTION_FLAGS && OPTION_FLAGS["diratime"] == MountFlag(true, {11})
    ensures "dirsync" in OPTION_FLAGS && OPTION_FLAGS["dirsync"] == MountFlag(false, {7})
    ensures "exec" in OPTION_FLAGS && OPTION_FLAGS["exec"] == MountFlag(true, {3})
  {
  }

  lemma Bits1(bit: nat)
    ensures ("dev" in Setting(bit) <==> false) && ("dev" in Clearing(bit) <==> bit in {2})
    ensures ("diratime" in Setting(bit) <==> false) && ("diratime" in Clearing(bit) <==> bit in {11})
    ensures ("dirsync" in Setting(bit) <==> bit in {7}) && ("dirsync" in Clearing(bit) <==> false)
    ensures ("exec" in Setting(bit) <==> false) && ("exec" in Clearing(bit) <==> bit in {3})
  {
  }

  predicate Group2(opt: string) {
    opt == "iversion" || opt == "lazytime" || opt == "loud" || opt == "mand"
  }

  lemma Touch2(opt: string, bit: nat)
    requires Group2(opt)
    ensures opt in OPTION_FLAGS && Means(opt, OPTION_FLAGS[opt].clear, OPTION_FLAGS[opt].flag, bit)
  {
    Entries2();
    Bits2(bit);
  }

  lemma Entries2()
    ensures "iversion" in OPTION_FLAGS && OPTION_FLAGS["iversion"] == MountFlag(false, {23})
    ensures "lazytime" in OPTION_FLAGS && OPTION_FLAGS["lazytime"] == MountFlag(false, {25})
    ensures "loud" in OPTION_FLAGS && OPTION_FLAGS["loud"] == MountFlag(true, {15})
    ensures "mand" in OPTION_FLAGS && OPTION_FLAGS["mand"] == MountFlag(false, {6})
  {
  }

  lemma Bits2(bit: nat)
    ensures ("iversion" in Setting(bit) <==> bit in {23}) && ("iversion" in Clearing(bit) <==> false)
    ensures ("lazytime" in Setting(bit) <==> bit in {25}) && ("lazytime" in Clearing(bit) <==> false)
    ensures ("loud" in Setting(bit) <==> false) && ("loud" in Clearing(bit) <==> bit in {15})
    ensures ("mand" in Setting(bit) <==> bit in {6}) && ("mand" in Clearing(bit) <==> false)
  {
  }

  predicate Group3(opt: string) {
    opt == "noacl" || opt == "noatime" || opt == "nodev" || opt == "nodiratime"
  }

  lemma Touch3(opt: string, bit: nat)
    requires Group3(opt)
    ensures opt in OPTION_FLAGS && Means(opt, OPTION_FLAGS[opt].clear, OPTION_FLAGS[opt].flag, bit)
  {
    Entries3();
    Bits3(bit);
  }

  lemma Entries3()
    ensures "noacl" in OPTION_FLAGS && OPTION_FLAGS["noacl"] == MountFlag(true, {16})
    ensures "noatime" in OPTION_FLAGS && OPTION_FLAGS["noatime"] == MountFlag(false, {10})
    ensures "nodev" in OPTION_FLAGS && OPTION_FLAGS["nodev"] == MountFlag(false, {2})
    ensures "nodiratime" in OPTION_FLAGS && OPTION_FLAGS["nodiratime"] == MountFlag(false, {11})
  {
  }

  lemma Bits3(bit: nat)
    ensures ("noacl" in Setting(bit) <==> false) && ("noacl" in Clearing(bit) <==> bit in {16})
    ensures ("noatime" in Setting(bit) <==> bit in {10}) && ("noatime" in Clearing(bit) <==> false)
    ensures ("nodev" in Setting(bit) <==> bit in {2}) && ("nodev" in Clearing(bit) <==> false)
    ensures ("nodiratime" in Setting(bit) <==> bit in {11}) && ("nodiratime" in Clearing(bit) <==> false)
  {
  }

  predicate Group4(opt: string) {
    opt == "noexec" || opt == "noiversion" || opt == "nolazytime" || opt == "nomand"
  }

  lemma Touch4(opt: string, bit: nat)
    requires Group4(opt)
    ensures opt in OPTION_FLAGS && Means(opt, OPTION_FLAGS[opt].clear, OPTION_FLAGS[opt].flag, bit)
  {
    Entries4();
    Bits4(bit);
  }

  lemma Entries4()
    ensures "noexec" in OPTION_FLAGS && OPTION_FLAGS["noexec"] == MountFlag(false, {3})
    ensures "noiversion" in OPTION_FLAGS && OPTION_FLAGS["noiversion"] == MountFlag(true, {23})
    ensures "nolazytime" in OPTION_FLAGS && OPTION_FLAGS["nolazytime"] == MountFlag(true, {25})
    ensures "nomand" in OPTION_FLAGS && OPTION_FLAGS["nomand"] == MountFlag(true, {6})
  {
  }

  lemma Bits4(bit: nat)
    ensures ("noexec" in Setting(bit) <==> bit in {3}) && ("noexec" in Clearing(bit) <==> false)
    ensures ("noiversion" in Setting(bit) <==> false) && ("noiversion" in Clearing(bit) <==> bit in {23})
    ensures ("nolazytime" in Setting(bit) <==> false) && ("nolazytime" in Clearing(bit) <==> bit in {25})
    ensures ("nomand" in Setting(bit) <==> false) && ("nomand" in Clearing(bit) <==> bit in {6})
  {
  }

  predicate Group5(opt: string) {
    opt == "norelatime" || opt == "nostrictatime" || opt == "nosuid" || opt == "nosymfollow"
  }

  lemma Touch5(opt: string, bit: nat)
    requires Group5(opt)
    ensures opt in OPTION_FLAGS && Means(opt, OPTION_FLAGS[opt].clear, OPTION_FLAGS[opt].flag, bit)
  {
    Entries5();
    Bits5(bit);
  }

  lemma Entries5()
    ensures "norelatime" in OPTION_FLAGS && OPTION_FLAGS["norelatime"] == MountFlag(true, {21})
    ensures "nostrictatime" in OPTION_FLAGS && OPTION_FLAGS["nostrictatime"] == MountFlag(true, {24})
    ensures "nosuid" in OPTION_FLAGS && OPTION_FLAGS["nosuid"] == MountFlag(false, {1})
    ensures "nosymfollow" in OPTION_FLAGS && OPTION_FLAGS["nosymfollow"] == MountFlag(false, {8})
  {
  }

  lemma Bits5(bit: nat)
    ensures ("norelatime" in Setting(bit) <==> false) && ("norelatime" in Clearing(bit) <==> bit in {21})
    ensures ("nostrictatime" in Setting(bit) <==> false) && ("nostrictatime" in Clearing(bit) <==> bit in {24})
    ensures ("nosuid" in Setting(bit) <==> bit in {1}) && ("nosuid" in Clearing(bit) <==> false)
    ensures ("nosymfollow" in Setting(bit) <==> bit in {8}) && ("nosymfollow" in Clearing(bit) <==> false)
  {
  }

  predicate Group6(opt: string) {
    opt == "rbind" || opt == "relatime" || opt == "remount" || opt == "ro"
  }

  lemma Touch6(opt: string, bit: nat)
    requires Group6(opt)
    ensures opt in OPTION_FLAGS && Means(opt, OPTION_FLAGS[opt].clear, OPTION_FLAGS[opt].flag, bit)
  {
    Entries6();
    Bits6(bit);
  }

  lemma Entries6()
    ensures "rbind" in OPTION_FLAGS && OPTION_FLAGS["rbind"] == MountFlag(false, {12, 14})
    ensures "relatime" in OPTION_FLAGS && OPTION_FLAGS["relatime"] == MountFlag(false, {21})
    ensures "remount" in OPTION_FLAGS && OPTION_FLAGS["remount"] == MountFlag(false, {5})
    ensures "ro" in OPTION_FLAGS && OPTION_FLAGS["ro"] == MountFlag(false, {0})
  {
  }

  lemma Bits6(bit: nat)
    ensures ("rbind" in Setting(bit) <==> bit in {12, 14}) && ("rbind" in Clearing(bit) <==> false)
    ensures ("relatime" in Setting(bit) <==> bit in {21}) && ("relatime" in Clearing(bit) <==> false)
    ensures ("remount" in Setting(bit) <==> bit in {5}) && ("remount" in Clearing(bit) <==> false)
    ensures ("ro" in Setting(bit) <==> bit in {0}) && ("ro" in Clearing(bit) <==> false)
  {
  }

  predicate Group7(opt: string) {
    opt == "rw" || opt == "silent" || opt == "strictatime" || opt == "suid"
  }

  lemma Touch7(opt: string, bit: nat)
    requires Group7(opt)
    ensures opt in OPTION_FLAGS && Means(opt, OPTION_FLAGS[opt].clear, OPTION_FLAGS[opt].flag, bit)
  {
    Entries7();
    Bits7(bit);
  }

  lemma Entries7()
    ensures "rw" in OPTION_FLAGS && OPTION_FLAGS["rw"] == MountFlag(true, {0})
    ensures "silent" in OPTION_FLAGS && OPTION_FLAGS["silent"] == MountFlag(false, {15})
    ensures "strictatime" in OPTION_FLAGS && OPTION_FLAGS["strictatime"] == MountFlag(false, {24})
    ensures "suid" in OPTION_FLAGS && OPTION_FLAGS["suid"] == MountFlag(true, {1})
  {
  }

  lemma Bits7(bit: nat)
    ensures ("rw" in Setting(bit) <==> false) && ("rw" in Clearing(bit) <==> bit in {0})
    ensures ("silent" in Setting(bit) <==> bit in {15}) && ("silent" in Clearing(bit) <==> false)
    ensures ("strictatime" in Setting(bit) <==> bit in {24}) && ("strictatime" in Clearing(bit) <==> false)
    ensures ("suid" in Setting(bit) <==> false) && ("suid" in Clearing(bit) <==> bit in {1})
  {
  }

  predicate Group8(opt: string) {
    opt == "sync"
  }

  lemma Touch8(opt: string, bit: nat)
    requires Group8(opt)
    ensures opt in OPTION_FLAGS && Means(opt, OPTION_FLAGS[opt].clear, OPTION_FLAGS[opt].flag, bit)
  {
    Entries8();
    Bits8(bit);
  }

  lemma Entries8()
    ensures "sync" in OPTION_FLAGS && OPTION_FLAGS["sync"] == MountFlag(false, {4})
  {
  }

  lemma Bits8(bit: nat)
    ensures ("sync" in Setting(bit) <==> bit in {4}) && ("sync" in Clearing(bit) <==> false)
  {
  }

  predicate Grouped(opt: string) {
    || Group0(opt) || Group1(opt) || Group2(opt) || Group3(opt) || Group4(opt)
    || Group5(opt) || Group6(opt) || Group7(opt) || Group8(opt)
  }

  /** The table has no other options, but for one without flags. */
  lemma Others(opt: string, bit: nat)
    requires !Grouped(opt)
    ensures opt !in Setting(bit) && opt !in Clearing(bit) && !Classify(LINUX, opt).Flag?
  {
    NoFlag(opt);
    NotNamed(opt, bit);
  }

  lemma NoFlag(opt: string)
    requires !Grouped(opt)
    ensures opt in OPTION_FLAGS ==> OPTION_FLAGS[opt].flag == {}
  {
  }

  lemma NotNamed(opt: string, bit: nat)
    requires !Grouped(opt)
    ensures opt !in Setting(bit) && opt !in Clearing(bit)
  {
  }

  lemma Spreads(opt: string, bit: nat)
    ensures Names(LINUX, opt, bit) <==> opt in Spreading(bit)
  {
    SpreadEntry(opt, bit);
    if opt in PROPAGATION_FLAGS {
      SpreadOnly(opt);
    }
  }

  lemma SpreadEntry(opt: string, bit: nat)
    ensures opt in PROPAGATION_FLAGS && bit in PROPAGATION_FLAGS[opt] <==> opt in Spreading(bit)
  {
  }

  /** The propagation flags are no options of the other table. */
  lemma SpreadOnly(opt: string)
    requires opt in PROPAGATION_FLAGS
    ensures opt !in OPTION_FLAGS
  {
    NoPrivate();
    NoSlave();
    NoShared();
    NoUnbindable();
  }

  lemma NoPrivate()
    ensures "rprivate" !in OPTION_FLAGS && "private" !in OPTION_FLAGS
  {
  }

  lemma NoSlave()
    ensures "rslave" !in OPTION_FLAGS && "slave" !in OPTION_FLAGS
  {
  }

  lemma NoShared()
    ensures "rshared" !in OPTION_FLAGS && "shared" !in OPTION_FLAGS
  {
  }

  lemma NoUnbindable()
    ensures "runbindable" !in OPTION_FLAGS && "unbindable" !in OPTION_FLAGS
  {
  }

  lemma Copies(opt: string)
    ensures Classify(LINUX, opt) == Extension(MountFlag(false, {0})) <==> opt == COPYING
    ensures Classify(LINUX, opt).Extension? ==> opt == COPYING
  {
  }

  lemma FlagsNotEmpty(opt: string)
    ensures var c := Classify(LINUX, opt);
            (c.Flag? ==> c.change.flag != {}) && (c.Propagation? ==> c.flag != {})
  {
  }

  // ----- file system types

  function FsName(t: FsType): string {
    match t
    case Bind => "bind"
    case Proc => "proc"
    case Sysfs => "sysfs"
    case Devpts => "devpts"
    case Mqueue => "mqueue"
    case Tmpfs => "tmpfs"
    case Cgroup => "cgroup"
    case Cgroup2 => "cgroup2"
  }

  /** Each type has its own name, and no other name has a type. */
  lemma FsTypeByName(t: FsType, name: string)
    ensures FsName(t) in FS_TYPES && FS_TYPES[FsName(t)] == t
    ensures name in FS_TYPES ==> FsName(FS_TYPES[name]) == name
  {
  }
}
