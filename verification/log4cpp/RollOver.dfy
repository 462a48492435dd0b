/** log4cpp's rolling file appender: backups renamed from the oldest on, with the names written into one buffer. */
module RollOver {
  import opened Chars
  import opened Decimals
  import opened Files
  import opened Sequences

  /** The file names of the C library end at the first NUL. */
  function CStr(s: string): string {
    if s == "" || s[0] == '\0' then "" else [s[0]] + CStr(s[1..])
  }

  lemma {:induction false} CStrOf(name: string, s: string)
    requires NulFree(name) && |name| < |s| && s[..|name| + 1] == name + "\0"
    ensures CStr(s) == name
  {
    assert forall i :: 0 <= i <= |name| ==> s[i] == s[..|name| + 1][i];
    if name != "" {
      assert s[1..][..|name|] == s[..|name| + 1][1..] == name[1..] + "\0";
      CStrOf(name[1..], s[1..]);
    }
  }

  function Over(buf: string, pos: nat, s: string): (r: string)
    requires pos <= |buf|
    ensures |r| == (if pos + |s| < |buf| then |buf| else pos + |s|)
    ensures r[..pos] == buf[..pos] && r[pos..pos + |s|] == s
    ensures forall i :: pos + |s| <= i < |buf| ==> r[i] == buf[i]
  {
    buf[..pos] + s + if pos + |s| < |buf| then buf[pos + |s|..] else ""
  }

  /** `std::ostringstream`: writing goes over what is there and never shortens it. */
  class OStringStream {
    var buf: string
    var pos: nat

    constructor ()
      ensures buf == "" && pos == 0
    {
      buf, pos := "", 0;
    }

    method Put(s: string)
      requires pos <= |buf|
      modifies this
      ensures buf == Over(old(buf), old(pos), s) && pos == old(pos) + |s|
    {
      buf := Over(buf, pos, s);
      pos := pos + |s|;
    }

    method SeekP(n: nat)
      requires n <= |buf|
      modifies this
      ensures buf == old(buf) && pos == n
    {
      pos := n;
    }
  }

  /** The name of backup `i`. */
  function Name(base: string, i: nat): string {
    base + "." + Decimal(i)
  }

  lemma NameIs(base: string, i: nat)
    requires NulFree(base)
    ensures NulFree(Name(base, i)) && Name(base, i) != base
  {
    assert |Name(base, i)| > |base|;
  }

  lemma NamesDiffer(base: string, i: nat, j: nat)
    requires Name(base, i) == Name(base, j)
    ensures i == j
  {
    assert Name(base, i)[|base| + 1..] == Decimal(i) && Name(base, j)[|base| + 1..] == Decimal(j);
    DecimalInjective(i, j);
  }

  /** The buffer holds the name of backup `i`, and perhaps more after its end. */
  predicate Holds(buf: string, base: string, i: nat) {
    |Name(base, i)| < |buf| && buf[..|Name(base, i)| + 1] == Name(base, i) + "\0"
  }

  /** Writing a number over the last one gives the other backup's name, also when it has fewer digits. */
  lemma Rewritten(buf: string, base: string, i: nat, j: nat)
    requires Holds(buf, base, i)
    ensures |base| + 1 <= |buf|
    ensures var d := Over(buf, |base| + 1, Decimal(j)); Holds(Over(d, |base| + 1 + |Decimal(j)|, "\0"), base, j)
  {
    var n := |base| + 1;
    assert buf[..n] == buf[..|Name(base, i)| + 1][..n] == base + ".";
    var d := Over(buf, n, Decimal(j));
    Joined(d, n, n + |Decimal(j)|);
    var e := Over(d, n + |Decimal(j)|, "\0");
    Joined(e, n + |Decimal(j)|, n + |Decimal(j)| + 1);
  }

  lemma Joined(s: string, a: nat, b: nat)
    requires a <= b <= |s|
    ensures s[..b] == s[..a] + s[a..b]
  {
  }

  datatype Content = Absent | Text(text: string)

  function Get(files: map<string, string>, name: string): Content {
    if name in files then Text(files[name]) else Absent
  }

  predicate IsBackup(name: string, base: string, n: nat) {
    exists i :: 1 <= i <= n && name == Name(base, i)
  }

  /** Which file the new content of backup `i` comes from. */
  function Source(base: string, i: nat): string
    requires i >= 1
  {
    if i == 1 then base else Name(base, i - 1)
  }

  /** Every backup has taken the place of the next one at once, and nothing else has changed. */
  ghost predicate Shifted(before: map<string, string>, after: map<string, string>, base: string, n: nat) {
    Get(after, base) == Text("")
    && (forall i {:trigger Name(base, i)} :: 1 <= i <= n ==> Get(after, Name(base, i)) == Get(before, Source(base, i)))
    && (forall name :: name != base && !IsBackup(name, base, n) ==> Get(after, name) == Get(before, name))
  }

  /** The backups above `i` have their new content, `i` is free, and the others are as they were. */
  ghost predicate Moved(before: map<string, string>, now: map<string, string>, base: string, n: nat, i: nat) {
    1 <= i <= n
    && (forall j {:trigger Name(base, j)} :: i < j <= n ==> Get(now, Name(base, j)) == Get(before, Source(base, j)))
    && Get(now, Name(base, i)) == Absent
    && (forall j {:trigger Name(base, j)} :: 1 <= j < i ==> Get(now, Name(base, j)) == Get(before, Name(base, j)))
    && (forall name :: !IsBackup(name, base, n) ==> Get(now, name) == Get(before, name))
  }

  /** `rename`. */
  function Renamed(files: map<string, string>, name: string, target: string): map<string, string> {
    if name in files then (files - {name})[target := files[name]] else files
  }

  lemma RenamedGet(files: map<string, string>, name: string, target: string, x: string)
    requires name != target && Get(files, target) == Absent
    ensures Get(Renamed(files, name, target), x)
            == if x == target then Get(files, name) else if x == name then Absent else Get(files, x)
  {
  }

  lemma MovedAtFirst(before: map<string, string>, base: string, n: nat)
    requires n >= 1
    ensures Moved(before, before - {Name(base, n)}, base, n, n)
  {
    forall j | 1 <= j < n
      ensures Name(base, j) != Name(base, n)
    {
      if Name(base, j) == Name(base, n) {
        NamesDiffer(base, j, n);
      }
    }
  }

  lemma MovedStep(before: map<string, string>, now: map<string, string>, base: string, n: nat, i: nat)
    requires i > 1 && Moved(before, now, base, n, i)
    ensures Moved(before, Renamed(now, Name(base, i - 1), Name(base, i)), base, n, i - 1)
  {
    var next := Renamed(now, Name(base, i - 1), Name(base, i));
    if Name(base, i - 1) == Name(base, i) {
      NamesDiffer(base, i - 1, i);
    }
    RenamedGet(now, Name(base, i - 1), Name(base, i), Name(base, i - 1));
    forall j | 1 <= j <= n && j != i - 1
      ensures Get(next, Name(base, j)) == Get(before, if j < i then Name(base, j) else Source(base, j))
    {
      if Name(base, j) == Name(base, i) {
        NamesDiffer(base, j, i);
      }
      if Name(base, j) == Name(base, i - 1) {
        NamesDiffer(base, j, i - 1);
      }
      RenamedGet(now, Name(base, i - 1), Name(base, i), Name(base, j));
    }
    forall name | !IsBackup(name, base, n)
      ensures Get(next, name) == Get(before, name)
    {
      RenamedGet(now, Name(base, i - 1), Name(base, i), name);
    }
  }

  /** `open` with `O_CREAT`, and with `O_TRUNC` when the appender was made not to append. */
  function Opened(files: map<string, string>, name: string, truncate: bool): (r: map<string, string>)
    ensures Get(r, name) == Text(if truncate || name !in files then "" else files[name])
    ensures forall other :: other != name ==> Get(r, other) == Get(files, other)
  {
    if name in files && !truncate then files else files[name := ""]
  }

  lemma ShiftedAtLast(before: map<string, string>, now: map<string, string>, base: string, n: nat, truncate: bool)
    requires NulFree(base) && Moved(before, now, base, n, 1)
    ensures Shifted(before, Opened(Renamed(now, base, Name(base, 1)), base, truncate), base, n)
  {
    var moved := Renamed(now, base, Name(base, 1));
    forall j | 1 <= j <= n
      ensures Name(base, j) != base
      ensures Get(moved, Name(base, j)) == Get(before, Source(base, j))
    {
      NameIs(base, j);
      if Name(base, j) == Name(base, 1) {
        NamesDiffer(base, j, 1);
      }
      RenamedGet(now, base, Name(base, 1), Name(base, j));
    }
    RenamedGet(now, base, Name(base, 1), base);
    forall name | name != base && !IsBackup(name, base, n)
      ensures Get(moved, name) == Get(before, name)
    {
      RenamedGet(now, base, Name(base, 1), name);
    }
  }

  function TextOf(c: Content): string {
    match c
    case Absent => ""
    case Text(t) => t
  }

  /** The texts of backups `i` to 1 and the current file, the oldest first. */
  function Held(files: map<string, string>, base: string, i: nat): string {
    if i == 0 then TextOf(Get(files, base)) else TextOf(Get(files, Name(base, i))) + Held(files, base, i - 1)
  }

  lemma {:induction false} HeldShifts(before: map<string, string>, after: map<string, string>, base: string, n: nat, i: nat)
    requires 1 <= i <= n && Shifted(before, after, base, n)
    ensures Held(after, base, i) == Held(before, base, i - 1)
  {
    assert Get(after, Name(base, i)) == Get(before, Source(base, i));
    if i > 1 {
      HeldShifts(before, after, base, n, i - 1);
    } else {
      assert Held(after, base, 0) == "";
    }
  }

  /** A roll loses the oldest backup's text and nothing else, whatever backups were there. */
  lemma RollLosesTheOldest(before: map<string, string>, after: map<string, string>, base: string, n: nat)
    requires n >= 1 && Shifted(before, after, base, n)
    ensures Held(before, base, n) == TextOf(Get(before, Name(base, n))) + Held(after, base, n)
  {
    HeldShifts(before, after, base, n, n);
  }

  /** What is written to the current file comes last. */
  lemma {:induction false} HeldGrows(files: map<string, string>, base: string, i: nat, message: string)
    requires NulFree(base) && base in files
    ensures Held(files[base := files[base] + message], base, i) == Held(files, base, i) + message
  {
    hide Name, NulFree;
    if i > 0 {
      NameIs(base, i);
      HeldGrows(files, base, i - 1, message);
      Regroup(TextOf(Get(files, Name(base, i))), Held(files, base, i - 1), message);
    }
  }

  /** The last `k` backups were all rolled at the maximal size or beyond. */
  ghost predicate Full(files: map<string, string>, base: string, k: nat, max: nat) {
    forall i {:trigger Name(base, i)} :: 1 <= i <= k ==>
      Get(files, Name(base, i)).Text? && |TextOf(Get(files, Name(base, i)))| >= max
  }

  lemma FullShifts(before: map<string, string>, after: map<string, string>, base: string, n: nat, k: nat, max: nat)
    requires n >= 1 && Shifted(before, after, base, n) && Full(before, base, k, max)
    requires base in before && |before[base]| >= max
    ensures Full(after, base, if k < n then k + 1 else n, max)
  {
    forall i | 1 <= i <= k + 1 && i <= n
      ensures Get(after, Name(base, i)).Text? && |TextOf(Get(after, Name(base, i)))| >= max
    {
      assert Get(after, Name(base, i)) == Get(before, Source(base, i));
      if i > 1 {
        assert Get(before, Name(base, i - 1)).Text?;
      }
    }
  }

  lemma FullStays(files: map<string, string>, base: string, text: string, k: nat, max: nat)
    requires NulFree(base) && Full(files, base, k, max)
    ensures Full(files[base := text], base, k, max)
  {
    forall i | 1 <= i <= k
      ensures Name(base, i) != base
    {
      NameIs(base, i);
    }
  }

  class RollingFileAppender {
    const fs: FileSystem
    const fileName: string
    const maxFileSize: nat
    const maxBackupIndex: nat
    /** `O_TRUNC` in `_flags`. */
    const truncate: bool
    /** What the files held at first and every message since. */
    ghost var history: string
    /** How many of the backups were made by this appender. */
    ghost var rolled: nat

    ghost predicate Valid()
      reads this, fs
    {
      NulFree(fileName) && fileName in fs.files && rolled <= maxBackupIndex
      && IsSuffix(Held(fs.files, fileName, maxBackupIndex), history)
      && Full(fs.files, fileName, rolled, maxFileSize)
    }

    constructor (fs: FileSystem, fileName: string, maxFileSize: nat, maxBackupIndex: nat, append: bool)
      requires NulFree(fileName)
      modifies fs
      ensures Valid() && this.fs == fs && this.fileName == fileName && this.maxFileSize == maxFileSize
      ensures this.maxBackupIndex == maxBackupIndex && truncate == !append && rolled == 0
      ensures fs.files == Opened(old(fs.files), fileName, !append)
              && history == Held(fs.files, fileName, maxBackupIndex)
    {
      this.fs, this.fileName, this.maxFileSize, this.maxBackupIndex := fs, fileName, maxFileSize, maxBackupIndex;
      truncate, rolled := !append, 0;
      new;
      fs.Open(fileName, !append);
      history := Held(fs.files, fileName, maxBackupIndex);
    }

    /** `rollOver`. */
    method RollOver()
      requires NulFree(fileName)
      modifies fs
      ensures maxBackupIndex == 0 ==> fs.files == Opened(old(fs.files), fileName, truncate)
      ensures maxBackupIndex > 0 ==> Shifted(old(fs.files), fs.files, fileName, maxBackupIndex)
    {
      hide Shifted, Moved, Holds, Over;
      if maxBackupIndex > 0 {
        ghost var before := fs.files;
        var oldName := NewName();
        HoldsIs(oldName.buf, fileName, maxBackupIndex);
        var _ := fs.Unlink(CStr(oldName.buf));
        MovedAtFirst(before, fileName, maxBackupIndex);
        var n := |fileName| + 1;
        var i := maxBackupIndex;
        while i > 1
          invariant fresh(oldName) && Holds(oldName.buf, fileName, i)
          invariant Moved(before, fs.files, fileName, maxBackupIndex, i) && i >= 1
        {
          var newName := oldName.buf;
          Renumber(oldName, n, i);
          HoldsIs(newName, fileName, i);
          HoldsIs(oldName.buf, fileName, i - 1);
          MovedStep(before, fs.files, fileName, maxBackupIndex, i);
          var _ := fs.Rename(CStr(oldName.buf), CStr(newName));
          i := i - 1;
        }
        HoldsIs(oldName.buf, fileName, 1);
        ShiftedAtLast(before, fs.files, fileName, maxBackupIndex, truncate);
        CStrWhole(fileName);
        var _ := fs.Rename(CStr(fileName), CStr(oldName.buf));
      }
      CStrWhole(fileName);
      fs.Open(CStr(fileName), truncate);
    }

    /** The name of the oldest backup, written into a fresh stream. */
    method NewName() returns (s: OStringStream)
      ensures fresh(s) && Holds(s.buf, fileName, maxBackupIndex)
    {
      s := new OStringStream();
      s.Put(fileName);
      s.Put(".");
      s.Put(Decimal(maxBackupIndex));
      s.Put("\0");
    }

    /** The number `i - 1` and a NUL, written over the number `i`. */
    method Renumber(s: OStringStream, n: nat, i: nat)
      requires n == |fileName| + 1 && i > 1 && Holds(s.buf, fileName, i)
      modifies s
      ensures Holds(s.buf, fileName, i - 1)
    {
      hide Holds, Over;
      Rewritten(s.buf, fileName, i, i - 1);
      s.SeekP(n);
      s.Put(Decimal(i - 1));
      s.Put("\0");
    }

    /** `_append`, of a message that the layout has formatted. */
    method Append(message: string)
      requires Valid()
      modifies this, fs
      ensures Valid() && history == old(history) + message
      ensures |fs.files[fileName]| < maxFileSize || maxFileSize == 0 || (maxBackupIndex == 0 && !truncate)
      ensures var written := old(fs.files)[fileName := old(fs.files[fileName]) + message];
              if |written[fileName]| < maxFileSize then fs.files == written && rolled == old(rolled)
              else if maxBackupIndex == 0 then fs.files == Opened(written, fileName, truncate) && rolled == 0
              else Shifted(written, fs.files, fileName, maxBackupIndex)
                   && rolled == if old(rolled) < maxBackupIndex then old(rolled) + 1 else maxBackupIndex
    {
      hide Held, IsSuffix;
      ghost var window := Held(fs.files, fileName, maxBackupIndex);
      HeldGrows(fs.files, fileName, maxBackupIndex, message);
      SuffixGrows(window, history, message);
      FullStays(fs.files, fileName, fs.files[fileName] + message, rolled, maxFileSize);
      fs.Write(fileName, message);
      history := history + message;
      var offset := |fs.files[fileName]|;
      if offset >= maxFileSize {
        ghost var written := fs.files;
        RollOver();
        if maxBackupIndex > 0 {
          RollLosesTheOldest(written, fs.files, fileName, maxBackupIndex);
          SuffixDrops(TextOf(Get(written, Name(fileName, maxBackupIndex))), Held(fs.files, fileName, maxBackupIndex), history);
          FullShifts(written, fs.files, fileName, maxBackupIndex, rolled, maxFileSize);
          rolled := if rolled < maxBackupIndex then rolled + 1 else rolled;
        } else {
          HeldAlone(written, fileName, truncate, history);
        }
      }
    }
  }

  lemma HeldAlone(files: map<string, string>, base: string, truncate: bool, history: string)
    requires base in files && IsSuffix(Held(files, base, 0), history)
    ensures IsSuffix(Held(Opened(files, base, truncate), base, 0), history)
  {
  }

  lemma HoldsIs(buf: string, base: string, i: nat)
    requires NulFree(base) && Holds(buf, base, i)
    ensures CStr(buf) == Name(base, i)
  {
    NameIs(base, i);
    CStrOf(Name(base, i), buf);
  }

  lemma {:induction false} CStrWhole(name: string)
    requires NulFree(name)
    ensures CStr(name) == name
  {
    if name != "" {
      CStrWhole(name[1..]);
    }
  }
}
