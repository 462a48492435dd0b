/** log4c's rolling file appender with the size window policy. */
module SizeWin {
  import opened Decimals
  import opened Files
  import opened Sequences

  const SW_LAST_FOPEN_FAILED := 1
  const ROLLINGPOLICY_ROLLOVER_ERR_CAN_LOG := 5

  /** `sizewin_get_filename_by_index`. */
  function FileName(logdir: string, prefix: string, i: nat): string {
    logdir + "/" + prefix + "." + Decimal(i)
  }

  lemma FileNamesDiffer(logdir: string, prefix: string, i: nat, j: nat)
    requires FileName(logdir, prefix, i) == FileName(logdir, prefix, j)
    ensures i == j
  {
    var base := logdir + "/" + prefix + ".";
    assert (base + Decimal(i))[|base|..] == Decimal(i);
    assert (base + Decimal(j))[|base|..] == Decimal(j);
    DecimalInjective(i, j);
  }

  // ---------- the window ----------

  /** What a list of files holds, newest file first: the text from the oldest on. */
  function Text(window: seq<string>): string {
    if window == [] then "" else Text(window[1..]) + window[0]
  }

  lemma {:induction false} TextOfConcat(a: seq<string>, b: seq<string>)
    ensures Text(a + b) == Text(b) + Text(a)
  {
    if a == [] {
      assert a + b == b;
    } else {
      assert (a + b)[1..] == a[1..] + b;
      TextOfConcat(a[1..], b);
      assert Text(b) + Text(a[1..]) + a[0] == Text(b) + (Text(a[1..]) + a[0]);
    }
  }

  /** The newest files hold the end of what all files held. */
  lemma WindowIsSuffix(all: seq<string>, k: nat)
    requires k <= |all|
    ensures IsSuffix(Text(all[..k]), Text(all))
  {
    assert all == all[..k] + all[k..];
    TextOfConcat(all[..k], all[k..]);
  }

  /** The window after a roll over: an empty file in front, and no more than `max` files. */
  function Rolled(window: seq<string>, max: nat): seq<string>
    requires max >= 1
  {
    [""] + (if |window| < max then window else window[..max - 1])
  }

  // ---------- the policy ----------

  predicate Distinct(names: seq<string>) {
    forall i, j :: 0 <= i < j < |names| ==> names[i] != names[j]
  }

  /** The first `n` names are files. */
  ghost predicate HasFiles(files: map<string, string>, names: seq<string>, n: nat) {
    n <= |names| && forall i :: 0 <= i < n ==> names[i] in files
  }

  /** The contents of the first `n` files, newest first. */
  ghost function Window(files: map<string, string>, names: seq<string>, n: nat): (w: seq<string>)
    requires HasFiles(files, names, n)
    ensures |w| == n && forall i :: 0 <= i < n ==> w[i] == files[names[i]]
  {
    seq(n, i requires 0 <= i < n => files[names[i]])
  }

  /** The contents of the files before the first name that is no file. */
  function Found(files: map<string, string>, names: seq<string>): seq<string> {
    if names == [] || names[0] !in files then [] else [files[names[0]]] + Found(files, names[1..])
  }

  lemma {:induction false} FoundIs(files: map<string, string>, names: seq<string>, n: nat)
    requires HasFiles(files, names, n) && (n < |names| ==> names[n] !in files)
    ensures Window(files, names, n) == Found(files, names)
  {
    if n > 0 {
      FoundIs(files, names[1..], n - 1);
      assert Window(files, names, n)[1..] == Window(files, names[1..], n - 1);
    }
  }

  /** The same file, or the same absence of a file. */
  ghost predicate Same(f: map<string, string>, g: map<string, string>, name: string) {
    (name in f <==> name in g) && (name in f ==> f[name] == g[name])
  }

  /** No file other than those named changes. */
  ghost predicate SameOutside(f: map<string, string>, g: map<string, string>, names: seq<string>) {
    forall n :: n !in names ==> Same(f, g, n)
  }

  /** The files from `i + 1` up to `k` have been moved up by one. */
  ghost predicate MovedFrom(f: map<string, string>, g: map<string, string>, names: seq<string>, k: int, i: int)
    requires -1 <= i <= k < |names| - 1 && HasFiles(f, names, k + 1)
  {
    SameOutside(f, g, names[..k + 2])
    && (forall j :: 0 <= j <= i ==> Same(f, g, names[j]))
    && forall j :: i + 1 < j <= k + 1 ==> names[j] in g && g[names[j]] == f[names[j - 1]]
  }

  lemma NothingMoved(f: map<string, string>, names: seq<string>, k: int)
    requires -1 <= k < |names| - 1 && HasFiles(f, names, k + 1)
    ensures MovedFrom(f, f, names, k, k)
  {
  }

  lemma MoveOne(f: map<string, string>, g: map<string, string>, names: seq<string>, k: int, i: int)
    requires 0 <= i <= k < |names| - 1 && HasFiles(f, names, k + 1) && Distinct(names) && MovedFrom(f, g, names, k, i)
    ensures names[i] in g && MovedFrom(f, (g - {names[i]})[names[i + 1] := g[names[i]]], names, k, i - 1)
  {
    var h := (g - {names[i]})[names[i + 1] := g[names[i]]];
    assert names[i] == names[..k + 2][i] && names[i + 1] == names[..k + 2][i + 1];
  }

  lemma AllMoved(f: map<string, string>, g: map<string, string>, names: seq<string>, k: int)
    requires -1 <= k < |names| - 1 && HasFiles(f, names, k + 1) && MovedFrom(f, g, names, k, -1)
    ensures SameOutside(f, g, names[..k + 2])
    ensures forall j :: 1 <= j <= k + 1 ==> names[j] in g && g[names[j]] == Window(f, names, k + 1)[j - 1]
  {
  }

  class Policy {
    const logdir: string
    const prefix: string
    const maxFileSize: int
    const maxNumFiles: nat
    var filenames: seq<string>
    var lastIndex: int
    var flags: int
    /** `PFLAGS_IS_INITIALIZED` of the policy. */
    var initialized: bool

    constructor (logdir: string, prefix: string, maxFileSize: int, maxNumFiles: nat)
      ensures this.logdir == logdir && this.prefix == prefix
      ensures this.maxFileSize == maxFileSize && this.maxNumFiles == maxNumFiles
      ensures flags == 0 && !initialized
    {
      this.logdir, this.prefix, this.maxFileSize, this.maxNumFiles := logdir, prefix, maxFileSize, maxNumFiles;
      filenames, lastIndex, flags, initialized := [], 0, 0, false;
    }

    /** The window is a run of files from index 0 on, shorter than or as long as the maximum. */
    ghost predicate Ready(files: map<string, string>)
      reads this
    {
      maxNumFiles >= 1 && |filenames| == maxNumFiles && Distinct(filenames) && -1 <= lastIndex < maxNumFiles
      && HasFiles(files, filenames, lastIndex + 1) && flags == 0
    }

    ghost function Files(files: map<string, string>): (w: seq<string>)
      requires Ready(files)
      reads this
      ensures |w| == lastIndex + 1 <= maxNumFiles
    {
      Window(files, filenames, lastIndex + 1)
    }

    /** `sizewin_make_filename_array`. */
    method MakeFilenameArray() returns (names: seq<string>)
      ensures |names| == maxNumFiles && Distinct(names)
      ensures forall i :: 0 <= i < |names| ==> names[i] == FileName(logdir, prefix, i)
    {
      names := [];
      while |names| < maxNumFiles
        invariant |names| <= maxNumFiles
        invariant forall i :: 0 <= i < |names| ==> names[i] == FileName(logdir, prefix, i)
      {
        names := names + [FileName(logdir, prefix, |names|)];
      }
      forall i, j | 0 <= i < j < |names|
        ensures names[i] != names[j]
      {
        if names[i] == names[j] {
          FileNamesDiffer(logdir, prefix, i, j);
        }
      }
    }

    /** `sizewin_get_last_index`: the files before the first gap. */
    method GetLastIndex(fs: FileSystem) returns (last: int)
      requires |filenames| == maxNumFiles >= 1
      ensures -1 <= last < maxNumFiles && HasFiles(fs.files, filenames, last + 1)
      ensures last + 1 < maxNumFiles ==> filenames[last + 1] !in fs.files
    {
      var i := 0;
      while i < maxNumFiles && filenames[i] in fs.files
        invariant i <= maxNumFiles && HasFiles(fs.files, filenames, i)
      {
        i := i + 1;
      }
      if i == 0 {
        if filenames[i] in fs.files {
          return 0;
        } else {
          return -1;
        }
      }
      return i - 1;
    }

    /** `sizewin_init` and the flag that the caller sets. */
    method Init(fs: FileSystem)
      requires maxNumFiles >= 1 && flags == 0
      modifies this
      ensures Ready(fs.files) && initialized && Files(fs.files) == Found(fs.files, filenames)
      ensures forall i :: 0 <= i < |filenames| ==> filenames[i] == FileName(logdir, prefix, i)
    {
      filenames := MakeFilenameArray();
      lastIndex := GetLastIndex(fs);
      initialized := true;
      FoundIs(fs.files, filenames, lastIndex + 1);
    }

    /** `sizewin_is_triggering_event`. */
    method IsTriggeringEvent(msg: string, currentFileSize: int) returns (decision: bool)
      ensures decision <==> maxFileSize > 0 && |msg| + currentFileSize > maxFileSize
    {
      decision := maxFileSize > 0 && |msg| + currentFileSize > maxFileSize;
    }

    /** The loop of `sizewin_rollover` that renames file `k` down to file 0. */
    method RotateUp(fs: FileSystem, k: int) returns (rc: int)
      requires -1 <= k < |filenames| - 1 && Distinct(filenames) && HasFiles(fs.files, filenames, k + 1)
      modifies fs
      ensures rc == 0 && SameOutside(old(fs.files), fs.files, filenames[..k + 2])
      ensures k + 1 < |filenames| && forall j :: 1 <= j <= k + 1 ==>
                filenames[j] in fs.files && fs.files[filenames[j]] == old(Window(fs.files, filenames, k + 1))[j - 1]
    {
      hide SameOutside, Distinct, MovedFrom;
      ghost var before, names := fs.files, filenames;
      rc := 0;
      var i := k;
      NothingMoved(before, names, k);
      while i >= 0
        invariant -1 <= i <= k && rc == 0
        invariant MovedFrom(before, fs.files, names, k, i)
      {
        MoveOne(before, fs.files, names, k, i);
        rc := fs.Rename(filenames[i], filenames[i + 1]);
        if rc != 0 {
          break;
        }
        i := i - 1;
      }
      AllMoved(before, fs.files, names, k);
    }

    /** `sizewin_rollover`; `fp` is the file that is open for writing. */
    method Rollover(fs: FileSystem, fp: Option<string>) returns (rc: int, fp1: Option<string>)
      requires Ready(fs.files)
      modifies this`lastIndex, this`flags, fs
      ensures Ready(fs.files) && rc == 0 && fp1 == Some(filenames[0]) && lastIndex >= 0
      ensures Files(fs.files) == Rolled(old(Files(fs.files)), maxNumFiles)
      ensures SameOutside(old(fs.files), fs.files, filenames[..lastIndex + 1])
    {
      hide SameOutside, Window, Distinct, HasFiles, Rolled;
      rc, fp1 := 0, fp;
      var k := lastIndex;
      ghost var before := fs.files;
      if k < 0 {
        fs.Create(filenames[0]);
        FirstFile(before, filenames, fs.files);
        fp1 := Some(filenames[0]);
        flags := 0;
        lastIndex := 0;
      } else {
        if k == maxNumFiles - 1 {
          var failed := fs.Unlink(filenames[k]);
          UnlinkKeeps(before, filenames, k);
          if failed != 0 {
            rc := 1;
          } else {
            k := maxNumFiles - 2;
          }
        } else {
          UnlinkNothing(before, filenames, k + 1);
        }
        if flags != SW_LAST_FOPEN_FAILED && fp.Some? {
          fp1 := None;
        }
        ghost var mid := fs.files;
        if rc == 0 {
          rc := RotateUp(fs, k);
          if rc == 0 {
            lastIndex := k + 1;
          }
        }
        ghost var rotated := fs.files;
        fs.Create(filenames[0]);
        fp1 := Some(filenames[0]);
        flags := 0;
        rc := 0;
        RolledIs(before, mid, rotated, filenames, k, old(lastIndex));
      }
    }
  }

  lemma FirstFile(f: map<string, string>, names: seq<string>, g: map<string, string>)
    requires |names| >= 1 && g == f[names[0] := ""]
    ensures HasFiles(f, names, 0) && HasFiles(g, names, 1) && SameOutside(f, g, names[..1])
    ensures Window(g, names, 1) == Rolled(Window(f, names, 0), |names|)
  {
    assert names[..1] == [names[0]];
  }

  /** Removing the last file of the window leaves the others. */
  lemma UnlinkKeeps(f: map<string, string>, names: seq<string>, k: nat)
    requires k < |names| && Distinct(names) && HasFiles(f, names, k + 1)
    ensures names[k] in f && HasFiles(f - {names[k]}, names, k)
    ensures Window(f - {names[k]}, names, k) == Window(f, names, k + 1)[..k]
    ensures SameOutside(f, f - {names[k]}, names[..k + 1])
  {
    assert names[k] == names[..k + 1][k];
  }

  lemma UnlinkNothing(f: map<string, string>, names: seq<string>, n: nat)
    requires HasFiles(f, names, n)
    ensures Window(f, names, n)[..n] == Window(f, names, n) && SameOutside(f, f, names[..n])
  {
  }

  lemma KeptWindow(w: seq<string>, max: nat, n: nat)
    requires 1 <= max && |w| <= max && n == if |w| == max then |w| - 1 else |w|
    ensures Rolled(w, max) == [""] + w[..n]
  {
    assert |w| < max ==> w[..n] == w;
  }

  /** File 0 is made anew in front of the files behind it. */
  lemma MadeAnew(rotated: map<string, string>, names: seq<string>, w: seq<string>)
    requires |w| < |names| && Distinct(names)
    requires forall j :: 1 <= j <= |w| ==> names[j] in rotated && rotated[names[j]] == w[j - 1]
    ensures var g := rotated[names[0] := ""];
            HasFiles(g, names, |w| + 1) && Window(g, names, |w| + 1) == [""] + w
  {
    var g := rotated[names[0] := ""];
    assert forall j :: 1 <= j <= |w| ==> names[j] != names[0];
    assert HasFiles(g, names, |w| + 1);
  }

  lemma RolledOutside(f: map<string, string>, mid: map<string, string>, rotated: map<string, string>,
      names: seq<string>, k: int, last: int)
    requires -1 <= k <= last < |names| && last <= k + 1 < |names|
    requires SameOutside(f, mid, names[..last + 1]) && SameOutside(mid, rotated, names[..k + 2])
    ensures SameOutside(f, rotated[names[0] := ""], names[..k + 2])
  {
    var g, touched := rotated[names[0] := ""], names[..k + 2];
    assert touched[0] == names[0] && names[..last + 1] <= touched;
    forall n | n !in touched
      ensures Same(f, g, n)
    {
      assert n !in names[..last + 1];
      assert Same(f, mid, n) && Same(mid, rotated, n);
    }
  }

  /** The window after the files up to `k` were renamed and file 0 was made anew. */
  lemma RolledIs(f: map<string, string>, mid: map<string, string>, rotated: map<string, string>, names: seq<string>,
      k: int, last: int)
    requires -1 <= k <= last < |names| && k + 1 < |names| && Distinct(names)
    requires HasFiles(f, names, last + 1) && HasFiles(mid, names, k + 1)
    requires k == if last == |names| - 1 then last - 1 else last
    requires Window(mid, names, k + 1) == Window(f, names, last + 1)[..k + 1]
    requires SameOutside(f, mid, names[..last + 1]) && SameOutside(mid, rotated, names[..k + 2])
    requires forall j :: 1 <= j <= k + 1 ==> names[j] in rotated && rotated[names[j]] == Window(mid, names, k + 1)[j - 1]
    ensures var g := rotated[names[0] := ""];
            HasFiles(g, names, k + 2) && SameOutside(f, g, names[..k + 2])
            && Window(g, names, k + 2) == Rolled(Window(f, names, last + 1), |names|)
  {
    hide *;
    MadeAnew(rotated, names, Window(mid, names, k + 1));
    KeptWindow(Window(f, names, last + 1), |names|, k + 1);
    RolledOutside(f, mid, rotated, names, k, last);
  }

  // ---------- what fprintf makes of a message ----------

  /** What `fprintf` writes for a format without arguments: two percent signs are one, and any other conversion would read
      an argument that is not there, which has no defined outcome. */
  function Printed(msg: string): (r: Option<string>)
    ensures r.Some? ==> |r.value| <= |msg|
  {
    if msg == "" then Some("")
    else if msg[0] != '%' then
      var rest := Printed(msg[1..]);
      if rest.None? then None else Some([msg[0]] + rest.value)
    else if |msg| > 1 && msg[1] == '%' then
      var rest := Printed(msg[2..]);
      if rest.None? then None else Some("%" + rest.value)
    else None
  }

  /** The text has the length of the message exactly if the message holds no percent sign, and then it is the message. */
  lemma {:induction false} PrintedIff(msg: string)
    ensures '%' !in msg ==> Printed(msg) == Some(msg)
    ensures Printed(msg).Some? ==> (|Printed(msg).value| == |msg| <==> '%' !in msg)
    decreases |msg|
  {
    if msg != "" && msg[0] != '%' {
      PrintedIff(msg[1..]);
      assert msg == [msg[0]] + msg[1..];
    }
  }

  lemma TwoPercentSignsAreOne()
    ensures Printed("%%") == Some("%")
  {
    assert "%%"[2..] == "" && "%" + "" == "%";
    assert Printed("") == Some("");
  }

  /** What the message adds to a file. */
  function Output(msg: string): (t: string)
    ensures |t| <= |msg|
  {
    match Printed(msg)
    case None => ""
    case Some(t) => t
  }

  function Concat(msgs: seq<string>): string {
    if msgs == [] then "" else Concat(msgs[..|msgs| - 1]) + msgs[|msgs| - 1]
  }

  /** What the messages add to a file one after the other. */
  function Shown(msgs: seq<string>): string {
    if msgs == [] then "" else Shown(msgs[..|msgs| - 1]) + Output(msgs[|msgs| - 1])
  }

  lemma OneMoreMessage(msgs: seq<string>, msg: string)
    ensures Concat(msgs + [msg]) == Concat(msgs) + msg && Shown(msgs + [msg]) == Shown(msgs) + Output(msg)
    ensures Concat([]) == Shown([]) == ""
  {
    assert (msgs + [msg])[..|msgs|] == msgs;
  }

  predicate Defined(msgs: seq<string>) {
    forall i :: 0 <= i < |msgs| ==> Printed(msgs[i]).Some?
  }

  predicate NoPercent(msgs: seq<string>) {
    forall i :: 0 <= i < |msgs| ==> '%' !in msgs[i]
  }

  /** The messages and what they add have the same length exactly if no message holds a percent sign. */
  lemma {:induction false} ShownIff(msgs: seq<string>)
    requires Defined(msgs)
    ensures |Shown(msgs)| <= |Concat(msgs)| && (|Shown(msgs)| == |Concat(msgs)| <==> NoPercent(msgs))
  {
    hide Shown, Concat, Printed;
    if msgs == [] {
      OneMoreMessage([], "");
    } else {
      var before, last := msgs[..|msgs| - 1], msgs[|msgs| - 1];
      ShownIff(before);
      PrintedIff(last);
      OneMoreMessage(before, last);
      assert msgs == before + [last];
    }
  }

  // ---------- the appender ----------

  /** The newest files of a list, as many as the window holds. */
  function Newest(all: seq<string>, max: nat): seq<string> {
    if |all| <= max then all else all[..max]
  }

  lemma NewestRolls(all: seq<string>, max: nat)
    requires max >= 1
    ensures Newest([""] + all, max) == Rolled(Newest(all, max), max)
  {
  }

  lemma NewestGrows(first: string, rest: seq<string>, max: nat, text: string)
    requires max >= 1
    ensures Newest([first] + rest, max) != []
    ensures Newest([first + text] + rest, max)
            == [Newest([first] + rest, max)[0] + text] + Newest([first] + rest, max)[1..]
  {
  }

  /** The files that the appender made, newest first, each as the messages logged to it. */
  type Made = seq<seq<string>>

  function Contents(made: Made): (all: seq<string>)
    ensures |all| == |made| && forall i :: 0 <= i < |made| ==> all[i] == Shown(made[i])
  {
    seq(|made|, i requires 0 <= i < |made| => Shown(made[i]))
  }

  /** `sizewin_is_triggering_event`, for a message and the file that is being written. */
  predicate Triggers(made: Made, msg: string, max: int)
    requires made != []
  {
    max > 0 && |msg| + |Concat(made[0])| > max
  }

  function AfterRoll(made: Made): Made {
    [[]] + made
  }

  function AfterWrite(made: Made, msg: string): Made
    requires made != []
  {
    [made[0] + [msg]] + made[1..]
  }

  /** The files after one more message. */
  function AfterAppend(made: Made, msg: string, max: int): (r: Made)
    requires made != []
    ensures r != []
  {
    AfterWrite(if Triggers(made, msg, max) then AfterRoll(made) else made, msg)
  }

  /** The files after all the messages. */
  function MadeBy(msgs: seq<string>, max: int): (made: Made)
    ensures made != []
  {
    if msgs == [] then [[]] else AfterAppend(MadeBy(msgs[..|msgs| - 1], max), msgs[|msgs| - 1], max)
  }

  /** All messages, from the oldest file to the newest. */
  function Messages(made: Made): seq<string> {
    if made == [] then [] else Messages(made[1..]) + made[0]
  }

  lemma NoMessages()
    ensures Messages([[]]) == []
  {
    var made: Made := [[]];
    assert made[1..] == [];
  }

  lemma MessagesAfterRoll(made: Made)
    ensures Messages(AfterRoll(made)) == Messages(made)
  {
    assert AfterRoll(made)[1..] == made;
  }

  lemma MessagesAfterWrite(made: Made, msg: string)
    requires made != []
    ensures Messages(AfterWrite(made, msg)) == Messages(made) + [msg]
  {
    assert AfterWrite(made, msg)[1..] == made[1..];
    Regroup(Messages(made[1..]), made[0], [msg]);
  }

  /** No message is lost, repeated or moved. */
  lemma {:induction false} MadeByHoldsAll(msgs: seq<string>, max: int)
    ensures Messages(MadeBy(msgs, max)) == msgs
  {
    hide Messages, AfterWrite, Triggers;
    if msgs == [] {
      NoMessages();
    } else {
      var before, last := msgs[..|msgs| - 1], msgs[|msgs| - 1];
      MadeByHoldsAll(before, max);
      var made := MadeBy(before, max);
      MessagesAfterRoll(made);
      MessagesAfterWrite(if Triggers(made, last, max) then AfterRoll(made) else made, last);
      assert before + [last] == msgs;
    }
  }

  /** No file is longer than the maximum unless it holds a single message. */
  predicate Bounded(made: Made, max: int) {
    max > 0 ==> forall i :: 0 <= i < |made| ==> |Concat(made[i])| <= max || |made[i]| == 1
  }

  /** A file is only left when the next message would not fit it. */
  predicate Greedy(made: Made, max: int) {
    |made| < 2
    || (made[0] != [] && max > 0 && |Concat(made[1])| + |made[0][0]| > max && Greedy(made[1..], max))
  }

  lemma BoundedRolls(made: Made, max: int)
    requires Bounded(made, max)
    ensures Bounded(AfterRoll(made), max)
  {
    OneMoreMessage([], "");
    hide Concat;
  }

  lemma BoundedGrows(made: Made, msg: string, max: int)
    requires made != [] && Bounded(made, max) && (max > 0 ==> |msg| + |Concat(made[0])| <= max || made[0] == [])
    ensures Bounded(AfterWrite(made, msg), max)
  {
    OneMoreMessage(made[0], msg);
    hide Concat;
  }

  lemma {:induction false} MadeByFits(msgs: seq<string>, max: int)
    ensures Bounded(MadeBy(msgs, max), max) && Greedy(MadeBy(msgs, max), max)
  {
    OneMoreMessage([], "");
    if msgs != [] {
      var before, last := msgs[..|msgs| - 1], msgs[|msgs| - 1];
      MadeByFits(before, max);
      var made := MadeBy(before, max);
      FitsAfter(made, last, max);
    }
  }

  lemma FitsAfter(made: Made, msg: string, max: int)
    requires made != [] && Bounded(made, max) && Greedy(made, max)
    ensures Bounded(AfterAppend(made, msg, max), max) && Greedy(AfterAppend(made, msg, max), max)
  {
    var rolls := Triggers(made, msg, max);
    BoundedRolls(made, max);
    BoundedGrows(if rolls then AfterRoll(made) else made, msg, max);
    hide Concat;
  }

  lemma {:induction false} TextOfContents(made: Made)
    ensures Text(Contents(made)) == Shown(Messages(made))
  {
    if made != [] {
      TextOfContents(made[1..]);
      assert Contents(made)[1..] == Contents(made[1..]);
      ShownConcat(Messages(made[1..]), made[0]);
    }
  }

  lemma {:induction false} ShownConcat(a: seq<string>, b: seq<string>)
    ensures Shown(a + b) == Shown(a) + Shown(b)
  {
    hide Shown, Output;
    if b == [] {
      assert a + b == a;
      OneMoreMessage(a, "");
    } else {
      var before, last := b[..|b| - 1], b[|b| - 1];
      assert a + b == (a + before) + [last] && before + [last] == b;
      OneMoreMessage(a + before, last);
      OneMoreMessage(before, last);
      ShownConcat(a, before);
      Regroup(Shown(a), Shown(before), Output(last));
    }
  }

  /** The newest files of those found and those made hold the end of all that was logged. */
  lemma NewestHoldTheEnd(made: Made, found: seq<string>, max: nat)
    ensures IsSuffix(Text(Newest(Contents(made) + found, max)), Text(found) + Shown(Messages(made)))
  {
    var all := Contents(made) + found;
    WindowIsSuffix(all, if |all| <= max then |all| else max);
    assert all[..|all|] == all;
    TextOfConcat(Contents(made), found);
    TextOfContents(made);
  }

  lemma ContentsRoll(made: Made)
    ensures Contents(AfterRoll(made)) == [""] + Contents(made)
  {
    OneMoreMessage([], "");
    hide Shown;
    var r := AfterRoll(made);
    assert r[0] == [] && forall i :: 0 < i < |r| ==> r[i] == made[i - 1];
  }

  /** A roll puts an empty file in front of the files there have been. */
  lemma RolledContents(made: Made, found: seq<string>, max: nat)
    requires max >= 1
    ensures Newest(Contents(AfterRoll(made)) + found, max) == Rolled(Newest(Contents(made) + found, max), max)
  {
    hide *;
    ContentsRoll(made);
    Regroup([""], Contents(made), found);
    NewestRolls(Contents(made) + found, max);
  }

  /** A message grows the first of them. */
  lemma GrownContents(made: Made, found: seq<string>, max: nat, msg: string)
    requires max >= 1 && made != []
    ensures var w := Newest(Contents(made) + found, max);
            w != [] && Newest(Contents(AfterWrite(made, msg)) + found, max) == [w[0] + Output(msg)] + w[1..]
  {
    hide Newest, Output, Shown;
    OneMoreMessage(made[0], msg);
    var first, rest := Shown(made[0]), Contents(made)[1..] + found;
    assert Contents(made) + found == [first] + rest;
    assert Contents(AfterWrite(made, msg)) + found == [first + Output(msg)] + rest;
    NewestGrows(first, rest, max, Output(msg));
  }

  /** Writing to file 0 changes just the first entry of the window. */
  lemma WriteWindow(f: map<string, string>, names: seq<string>, n: nat, text: string)
    requires HasFiles(f, names, n) && n >= 1 && Distinct(names)
    ensures var g := f[names[0] := f[names[0]] + text]; var w := Window(f, names, n);
            HasFiles(g, names, n) && Window(g, names, n) == [w[0] + text] + w[1..]
  {
  }

  /** The empty file that opening makes. */
  lemma FirstFileMade(found: seq<string>, maxFiles: nat, maxSize: int)
    requires |found| <= maxFiles && maxFiles >= 1
    ensures Newest(Contents([[]]) + found, maxFiles) == Rolled(found, maxFiles)
    ensures Concat([]) == "" && Bounded([[]], maxSize) && Defined([])
  {
    OneMoreMessage([], "");
    NewestRolls(found, maxFiles);
    assert Contents([[]]) + found == [""] + found;
  }

  class RollingFile {
    const policy: Policy
    const fs: FileSystem
    var currentFileSize: int
    var currentFp: Option<string>
    /** The files of the window when the appender was opened, and those it has made, newest first. */
    ghost const found: seq<string>
    ghost var made: Made

    ghost predicate Valid()
      reads this, policy, fs
    {
      policy.Ready(fs.files) && policy.lastIndex >= 0 && currentFp == Some(policy.filenames[0]) && made != []
      && policy.Files(fs.files) == Newest(Contents(made) + found, policy.maxNumFiles)
      && currentFileSize == |Concat(made[0])| && Bounded(made, policy.maxFileSize)
      && forall i :: 0 <= i < |made| ==> Defined(made[i])
    }

    /** `rollingfile_open` with a policy, which is initialised unless it has been before. */
    constructor (policy: Policy, fs: FileSystem)
      requires policy.maxNumFiles >= 1 && policy.flags == 0 && (policy.initialized ==> policy.Ready(fs.files))
      modifies policy, fs
      ensures this.policy == policy && this.fs == fs && Valid() && policy.initialized && made == [[]]
      ensures found == if old(policy.initialized) then old(policy.Files(fs.files)) else Found(old(fs.files), policy.filenames)
      ensures old(policy.initialized) ==> policy.filenames == old(policy.filenames)
      ensures !old(policy.initialized) ==>
                forall i :: 0 <= i < |policy.filenames| ==> policy.filenames[i] == FileName(policy.logdir, policy.prefix, i)
    {
      hide SameOutside, Distinct, HasFiles, Window, Found, Rolled, Newest, Contents, Concat, Defined, Bounded;
      this.policy, this.fs := policy, fs;
      currentFileSize, currentFp := 0, None;
      if !policy.initialized {
        policy.Init(fs);
      }
      found, made := policy.Files(fs.files), [[]];
      new;
      FirstFileMade(found, policy.maxNumFiles, policy.maxFileSize);
      var rc;
      rc, currentFp := policy.Rollover(fs, currentFp);
      if rc == 0 {
        currentFileSize := 0;
      }
    }

    /** In every reachable state the files of the window hold the end of everything that was found and logged, the size is
        that of the current file exactly if no message in it holds a percent sign, and no file made is longer than the
        maximum unless it holds a single message. */
    lemma WindowHoldsTheEnd()
      requires Valid()
      ensures 0 <= policy.lastIndex < policy.maxNumFiles
      ensures IsSuffix(Text(policy.Files(fs.files)), Text(found) + Shown(Messages(made)))
      ensures currentFileSize == |policy.Files(fs.files)[0]| <==> NoPercent(made[0])
      ensures policy.maxFileSize > 0 ==>
                forall i :: 0 <= i < |made| ==> |Contents(made)[i]| <= policy.maxFileSize || |made[i]| == 1
    {
      NewestHoldTheEnd(made, found, policy.maxNumFiles);
      assert policy.Files(fs.files)[0] == Contents(made)[0];
      forall i | 0 <= i < |made|
        ensures |Shown(made[i])| <= |Concat(made[i])| && (|Shown(made[i])| == |Concat(made[i])| <==> NoPercent(made[i]))
      {
        ShownIff(made[i]);
      }
      hide Concat, Shown, Text, Messages;
    }

    /** The trigger check of `rollingfile_append`. */
    method CheckTrigger(msg: string) returns (rc: int)
      requires Valid()
      modifies this, policy`lastIndex, policy`flags, fs
      ensures Valid() && rc == 0
      ensures made == if Triggers(old(made), msg, policy.maxFileSize) then AfterRoll(old(made)) else old(made)
    {
      hide SameOutside, Distinct, Rolled, Concat, Newest, Contents;
      rc := 0;
      var decision := policy.IsTriggeringEvent(msg, currentFileSize);
      if decision {
        OneMoreMessage([], "");
        RolledContents(made, found, policy.maxNumFiles);
        BoundedRolls(made, policy.maxFileSize);
        made := AfterRoll(made);
        rc, currentFp := policy.Rollover(fs, currentFp);
        if rc <= ROLLINGPOLICY_ROLLOVER_ERR_CAN_LOG {
          currentFileSize := 0;
        }
      }
    }

    /** The write of `rollingfile_append`. */
    method Print(msg: string) returns (rc: int)
      requires Valid() && Printed(msg).Some?
      requires policy.maxFileSize > 0 ==> |msg| + currentFileSize <= policy.maxFileSize || made[0] == []
      modifies this, fs
      ensures Valid() && rc == |Output(msg)| && made == AfterWrite(old(made), msg)
    {
      hide Distinct, Concat, Newest, Contents, Printed, Output;
      BoundedGrows(made, msg, policy.maxFileSize);
      OneMoreMessage(made[0], msg);
      GrownContents(made, found, policy.maxNumFiles, msg);
      WriteWindow(fs.files, policy.filenames, policy.lastIndex + 1, Output(msg));
      made := AfterWrite(made, msg);
      fs.Write(currentFp.value, Output(msg));
      rc := |Output(msg)|;
      currentFileSize := currentFileSize + |msg|;
    }

    /** `rollingfile_append`, of a message that `fprintf` can take as a format. */
    method Append(msg: string) returns (rc: int)
      requires Valid() && Printed(msg).Some?
      modifies this, policy`lastIndex, policy`flags, fs
      ensures Valid() && rc == |Output(msg)| && made == AfterAppend(old(made), msg, policy.maxFileSize)
      ensures policy.Files(fs.files) == Newest(Contents(made) + found, policy.maxNumFiles)
      ensures currentFileSize == |Concat(made[0])|
    {
      hide Concat, Newest, Contents, SameOutside, Distinct;
      rc := CheckTrigger(msg);
      if rc <= ROLLINGPOLICY_ROLLOVER_ERR_CAN_LOG {
        rc := Print(msg);
      }
    }
  }

  /** A whole run of an appender on any file system: the messages are in the files that it made in their order, split just
      where the next one would not fit; the window is the newest of these and of the files found at first, and ends all
      that was logged; and the size is that of the current file exactly if no message in it holds a percent sign. */
  method LogAll(policy: Policy, fs: FileSystem, msgs: seq<string>) returns (appender: RollingFile)
    requires policy.maxNumFiles >= 1 && policy.flags == 0 && !policy.initialized && Defined(msgs)
    modifies policy, fs
    ensures fresh(appender) && appender.policy == policy && appender.fs == fs && policy.Ready(fs.files)
    ensures appender.found == Found(old(fs.files), policy.filenames)
            && appender.made == MadeBy(msgs, policy.maxFileSize)
    ensures Messages(appender.made) == msgs && Greedy(appender.made, policy.maxFileSize)
    ensures policy.Files(fs.files) == Newest(Contents(appender.made) + appender.found, policy.maxNumFiles)
    ensures IsSuffix(Text(policy.Files(fs.files)), Text(appender.found) + Shown(msgs))
    ensures policy.Files(fs.files) != [] && appender.made != []
    ensures appender.currentFileSize == |policy.Files(fs.files)[0]| <==> NoPercent(appender.made[0])
    ensures policy.maxFileSize > 0 ==>
              forall i :: 0 <= i < |appender.made| ==>
                |Contents(appender.made)[i]| <= policy.maxFileSize || |appender.made[i]| == 1
  {
    hide Concat, Shown, Text, Newest, Contents, Window, Distinct, Found, Greedy, MadeBy, AfterAppend, Messages;
    appender := new RollingFile(policy, fs);
    MadeByStep([], "", policy.maxFileSize);
    var i := 0;
    while i < |msgs|
      invariant i <= |msgs| && fresh(appender) && appender.policy == policy && appender.fs == fs && appender.Valid()
      invariant appender.found == Found(old(fs.files), policy.filenames)
      invariant appender.made == MadeBy(msgs[..i], policy.maxFileSize)
    {
      var rc := appender.Append(msgs[i]);
      MadeByStep(msgs[..i], msgs[i], policy.maxFileSize);
      assert msgs[..i + 1] == msgs[..i] + [msgs[i]];
      i := i + 1;
    }
    assert msgs[..|msgs|] == msgs;
    MadeByHoldsAll(msgs, policy.maxFileSize);
    MadeByFits(msgs, policy.maxFileSize);
    appender.WindowHoldsTheEnd();
  }

  lemma MadeByStep(msgs: seq<string>, msg: string, max: int)
    ensures MadeBy([], max) == [[]] && MadeBy(msgs + [msg], max) == AfterAppend(MadeBy(msgs, max), msg, max)
  {
    assert (msgs + [msg])[..|msgs|] == msgs;
  }
}
