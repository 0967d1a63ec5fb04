/**
 * The argument vectors of mkfs, label and fsck, the tables they come from, and the choice of
 * file system when a partition is formatted.
 */
module CommandTables {
  import opened Base

  // ---------------------------------------------------------------- splitting on white space

  /** std::isspace in the classic locale. */
  predicate IsSpace(c: char) {
    c as int == 32 || 9 <= c as int <= 13
  }

  function SkipSpaces(s: string): (r: string)
    ensures |r| <= |s|
    ensures r != "" ==> !IsSpace(r[0])
  {
    if s != "" && IsSpace(s[0]) then SkipSpaces(s[1..]) else s
  }

  /** Length of the longest prefix without white space. */
  function WordLength(s: string): (n: nat)
    ensures n <= |s|
    ensures s != "" && !IsSpace(s[0]) ==> n > 0
    ensures forall i :: 0 <= i < n ==> !IsSpace(s[i])
    ensures n < |s| ==> IsSpace(s[n])
  {
    if s == "" || IsSpace(s[0]) then 0 else 1 + WordLength(s[1..])
  }

  /** What repeated stream extraction reads. */
  function Tokens(s: string): seq<string>
    decreases |s|
  {
    var t := SkipSpaces(s);
    if t == "" then [] else [t[..WordLength(t)]] + Tokens(t[WordLength(t)..])
  }

  /** splitArgs. */
  method SplitArgs(str: string) returns (args: seq<string>)
    ensures args == Tokens(str)
  {
    args := [];
    var rest := str;
    while true
      invariant args + Tokens(rest) == Tokens(str)
      decreases |rest|
    {
      var arg, ok;
      ok, arg, rest := Extract(rest);
      if !ok {
        break;
      }
      args := args + [arg];
    }
  }

  /** One extraction: skip white space, then read a word; fails when nothing is left. */
  method Extract(s: string) returns (ok: bool, arg: string, rest: string)
    ensures ok <==> Tokens(s) != []
    ensures ok ==> Tokens(s) == [arg] + Tokens(rest) && |rest| < |s|
    ensures !ok ==> Tokens(rest) == []
  {
    var t := SkipLeading(s);
    arg, rest := CutWord(t);
    ok := t != "";
  }

  method SkipLeading(s: string) returns (t: string)
    ensures t == SkipSpaces(s)
  {
    var i := 0;
    while i < |s| && IsSpace(s[i])
      invariant i <= |s| && SkipSpaces(s[i..]) == SkipSpaces(s)
    {
      i := i + 1;
    }
    t := s[i..];
  }

  method CutWord(t: string) returns (word: string, rest: string)
    ensures word == t[..WordLength(t)] && rest == t[WordLength(t)..]
  {
    var j := 0;
    while j < |t| && !IsSpace(t[j])
      invariant j <= |t| && WordLength(t) == j + WordLength(t[j..])
    {
      assert t[j..][1..] == t[j + 1..];
      j := j + 1;
    }
    word, rest := t[..j], t[j..];
  }

  ghost predicate IsWord(a: string) {
    a != "" && forall i :: 0 <= i < |a| ==> !IsSpace(a[i])
  }

  function Spaced(args: seq<string>): string {
    if args == [] then "" else args[0] + " " + Spaced(args[1..])
  }

  lemma TokensSkip(s: string)
    requires s != "" && IsSpace(s[0])
    ensures Tokens(s) == Tokens(s[1..])
  {
  }

  lemma FirstToken(word: string, rest: string)
    requires IsWord(word) && (rest == "" || IsSpace(rest[0]))
    ensures Tokens(word + rest) == [word] + Tokens(rest)
  {
    WordEnds(word, rest);
    var s := word + rest;
    assert s[0] == word[0] && s[..|word|] == word && s[|word|..] == rest;
  }

  lemma {:induction false} WordEnds(word: string, rest: string)
    requires forall i :: 0 <= i < |word| ==> !IsSpace(word[i])
    requires rest == "" || IsSpace(rest[0])
    ensures WordLength(word + rest) == |word|
  {
    if word == "" {
      assert word + rest == rest;
    } else {
      assert (word + rest)[1..] == word[1..] + rest;
      WordEnds(word[1..], rest);
    }
  }

  /** Writing words one after the other and splitting again gives the words back. */
  lemma {:induction false} SplitUndoesSpaced(args: seq<string>)
    requires forall k :: 0 <= k < |args| ==> IsWord(args[k])
    ensures Tokens(Spaced(args)) == args
  {
    if args != [] {
      var rest := " " + Spaced(args[1..]);
      assert Spaced(args) == args[0] + rest && rest[1..] == Spaced(args[1..]);
      FirstToken(args[0], rest);
      TokensSkip(rest);
      SplitUndoesSpaced(args[1..]);
    }
  }

  /** White space on one side of a cut separates the tokens of the two parts. */
  lemma {:induction false} TokensOfParts(s: string, t: string)
    requires s == "" || t == "" || IsSpace(s[|s| - 1]) || IsSpace(t[0])
    ensures Tokens(s + t) == Tokens(s) + Tokens(t)
    decreases |s|
  {
    if s == "" {
      assert s + t == t;
    } else if IsSpace(s[0]) {
      TokensOfParts(s[1..], t);
      PutSpaceBack(s, t);
    } else {
      var word, rest := s[..WordLength(s)], s[WordLength(s)..];
      assert rest != "" ==> rest[|rest| - 1] == s[|s| - 1];
      TokensOfParts(rest, t);
      PutWordBack(s, word, rest, t);
    }
  }

  lemma PutSpaceBack(s: string, t: string)
    requires s != "" && IsSpace(s[0]) && Tokens(s[1..] + t) == Tokens(s[1..]) + Tokens(t)
    ensures Tokens(s + t) == Tokens(s) + Tokens(t)
  {
    TokensSkip(s);
    TokensSkip(s + t);
    assert (s + t)[1..] == s[1..] + t;
  }

  lemma PutWordBack(s: string, word: string, rest: string, t: string)
    requires s == word + rest && IsWord(word) && (rest + t == "" || IsSpace((rest + t)[0]))
    requires rest == "" || IsSpace(rest[0])
    requires Tokens(rest + t) == Tokens(rest) + Tokens(t)
    ensures Tokens(s + t) == Tokens(s) + Tokens(t)
  {
    FirstToken(word, rest);
    FirstToken(word, rest + t);
    Associate(word, rest, t);
    Associate([word], Tokens(rest), Tokens(t));
  }

  lemma Associate<T>(a: seq<T>, b: seq<T>, c: seq<T>)
    ensures (a + b) + c == a + (b + c)
  {
  }

  /** Every token is a word, and the tokens together are the characters that are not white space. */
  lemma {:induction false} TokensAreTheWords(s: string)
    ensures forall k :: 0 <= k < |Tokens(s)| ==> IsWord(Tokens(s)[k])
    ensures Flatten(Tokens(s)) == Solid(s)
    decreases |s|
  {
    var t := SkipSpaces(s);
    SolidSkips(s);
    if t != "" {
      var n := WordLength(t);
      TokensAreTheWords(t[n..]);
      SolidWord(t, n);
    }
  }

  function Flatten(ss: seq<string>): string {
    if ss == [] then "" else ss[0] + Flatten(ss[1..])
  }

  /** The characters that are not white space. */
  function Solid(s: string): string {
    if s == "" then "" else (if IsSpace(s[0]) then "" else [s[0]]) + Solid(s[1..])
  }

  lemma {:induction false} SolidSkips(s: string)
    ensures Solid(SkipSpaces(s)) == Solid(s)
  {
    if s != "" && IsSpace(s[0]) { SolidSkips(s[1..]); }
  }

  lemma {:induction false} SolidWord(s: string, n: nat)
    requires n <= |s| && forall i :: 0 <= i < n ==> !IsSpace(s[i])
    ensures Solid(s) == s[..n] + Solid(s[n..])
  {
    if n > 0 {
      SolidWord(s[1..], n - 1);
      assert s[1..][n - 1..] == s[n..];
      assert s[..n] == [s[0]] + s[1..][..n - 1];
    }
  }

  // ---------------------------------------------------------------- file systems and storage types

  datatype StorageType = UsbStick | UsbHdd | UsbCardReader | UsbMtp | UsbPtp | Emmc | UsbUndefined

  function TypeString(st: StorageType): string {
    match st
    case UsbStick => "FLASH"
    case UsbHdd => "HDD"
    case UsbCardReader => "FLASH"
    case UsbMtp => "STREAMING"
    case UsbPtp => "STREAMING"
    case Emmc => "EMMC"
    case UsbUndefined => "UNKNOWN"
  }

  predicate IsSupportedFileSystem(fsType: string, storageType: string) {
    if fsType == "" then false
    else if storageType == "UNKNOWN" || storageType == "STREAMING" then false
    else fsType == "vfat" || fsType == "ntfs" || fsType == "ext2" || fsType == "ext3" || fsType == "ext4"
  }

  /** setDefaultFsForFormat. */
  function DefaultFs(storageType: string, current: string): string {
    if storageType == "FLASH" then "vfat"
    else if storageType == "HDD" then "ntfs"
    else if storageType == "EMMC" then "ext4"
    else if current == "" then "vfat" else current
  }

  /** The file system format settles on for a request. */
  function Resolve(st: StorageType, current: string, requested: string): string {
    if IsSupportedFileSystem(requested, TypeString(st)) then requested else DefaultFs(TypeString(st), current)
  }

  // ---------------------------------------------------------------- the tables

  const FORMAT_COMMANDS: map<string, string> := map[
    "nofs" := "", "ntfs" := "mkntfs -F -Q ", "vfat" := "mkfs.vfat -F 32 ",
    "jfs" := "jfs_mkfs -q -z 0x00000000 ", "ext2" := "mkfs.ext2 -F ",
    "ext3" := "mkfs.ext3 -F ", "ext4" := "mkfs.ext4 -F "]

  const LABEL_OPTIONS: map<string, string> := map[
    "nofs" := "", "ntfs" := " -L ", "vfat" := " -n ", "jfs" := " -L ",
    "ext2" := " -L ", "ext3" := " -L ", "ext4" := " -L "]

  const FSCK_TABLE: map<string, (string, string)> := map[
    "nofs" := ("", ""), "ntfs" := ("ntfsck", "-p"), "tntfs" := ("ntfsck", "-p"),
    "vfat" := ("fsck.vfat", "-a"), "tfat" := ("fsck.fat", ""),
    "jfs" := ("jfs_fsck", "-Q -z 0x00000000"), "ext2" := ("fsck.ext2", ""),
    "ext3" := ("fsck.ext3", ""), "ext4" := ("fsck.ext4", ""),
    "ptp_fuse" := ("", ""), "mtp_fuse" := ("", ""), "exfat" := ("", ""), "err" := ("", "")]

  const TIMEOUT := "timeout 20 "

  function FormatArgv(drive: string, fs: string, volLabel: string): seq<string> {
    if fs !in FORMAT_COMMANDS then []
    else if Tokens(FORMAT_COMMANDS[fs]) == [] then []
    else
      Tokens(FORMAT_COMMANDS[fs]) + ["/dev/" + drive]
      + if volLabel == "" then []
        else (if fs in LABEL_OPTIONS then Tokens(LABEL_OPTIONS[fs]) else []) + [volLabel]
  }

  /** DiskFormat::formatCommand. */
  method FormatCommand(drive: string, fs: string, volLabel: string) returns (argv: seq<string>)
    ensures argv == FormatArgv(drive, fs, volLabel)
  {
    if fs !in FORMAT_COMMANDS {
      return [];
    }
    argv := SplitArgs(FORMAT_COMMANDS[fs]);
    if argv == [] {
      return [];
    }
    argv := argv + ["/dev/" + drive];
    if volLabel != "" {
      if fs in LABEL_OPTIONS {
        var option := SplitArgs(LABEL_OPTIONS[fs]);
        argv := argv + option;
      }
      argv := argv + [volLabel];
    }
  }

  /** PdmFs::volumeLabelCommand. */
  function LabelArgv(fs: string, drive: string, volLabel: string): seq<string> {
    if fs == "tntfs" || fs == "ntfs" then ["ntfslabel", "-f", "/dev/" + drive, volLabel]
    else if fs == "vfat" || fs == "tfat" then ["fatlabel", "-f", "-l", volLabel, "/dev/" + drive]
    else if fs == "ext2" || fs == "ext3" || fs == "ext4" then ["e2label", "/dev/" + drive, volLabel]
    else []
  }

  /** PdmFsck::getFsckMode. */
  function FsckMode(fs: string, mode: string): string {
    if fs == "" then ""
    else if fs == "tntfs" then (if mode == "auto" then "-C -at 20" else "-C")
    else if fs == "tfat" then (if mode == "auto" then "-a -t 20" else "")
    else if fs == "jfs" then (if mode == "force" then "-f --omit_journal_replay" else "-a")
    else if fs == "ext2" || fs == "ext3" || fs == "ext4" then (if mode == "force" then "-yf" else "-y")
    else ""
  }

  /** The program that checks fs and its fixed options, if there is one. */
  function FsckEntry(fs: string): Option<(string, string)> {
    if fs !in FSCK_TABLE || FSCK_TABLE[fs].0 == "" then None else Some(FSCK_TABLE[fs])
  }

  function TimeoutArgs(mode: string, fs: string): seq<string> {
    if mode == "auto" && fs != "tntfs" && fs != "tfat" then Tokens(TIMEOUT) else []
  }

  function FsckArgv(mode: string, fs: string, partition: string): seq<string> {
    match FsckEntry(fs)
    case None => []
    case Some(entry) =>
      Assembled(TimeoutArgs(mode, fs), entry.0, Tokens(FsckMode(fs, mode)), Tokens(entry.1), "/dev/" + partition)
  }

  function Assembled(wrapper: seq<string>, bin: string, modeArgs: seq<string>, options: seq<string>, dev: string)
    : seq<string>
  {
    wrapper + [bin] + modeArgs + options + [dev]
  }

  method TimeoutPrefix(mode: string, fs: string) returns (args: seq<string>)
    ensures args == TimeoutArgs(mode, fs)
  {
    if mode == "auto" && fs != "tntfs" && fs != "tfat" {
      args := SplitArgs(TIMEOUT);
    } else {
      args := [];
    }
  }

  /** The push_back loops of fsckCommand. */
  method Assemble(wrapper: seq<string>, bin: string, modeArgs: seq<string>, options: seq<string>, dev: string)
    returns (argv: seq<string>)
    ensures argv == Assembled(wrapper, bin, modeArgs, options, dev)
  {
    argv := wrapper + [bin];
    for i := 0 to |modeArgs|
      invariant argv == wrapper + [bin] + modeArgs[..i]
    {
      argv := argv + [modeArgs[i]];
    }
    for i := 0 to |options|
      invariant argv == wrapper + [bin] + modeArgs + options[..i]
    {
      argv := argv + [options[i]];
    }
    argv := argv + [dev];
  }

  /** PdmFsck::fsckCommand. */
  method FsckCommand(mode: string, fs: string, partition: string) returns (argv: seq<string>)
    ensures argv == FsckArgv(mode, fs, partition)
  {
    var found := FsckEntry(fs);
    if found.None? {
      return [];
    }
    var wrapper := TimeoutPrefix(mode, fs);
    var modeArgs := SplitArgs(FsckMode(fs, mode));
    var options := SplitArgs(found.value.1);
    argv := Assemble(wrapper, found.value.0, modeArgs, options, "/dev/" + partition);
  }

  // ---------------------------------------------------------------- what the vectors are

  /** The words of each mkfs command, written out. */
  function MkfsWords(fs: string): seq<string> {
    if fs == "ntfs" then ["mkntfs", "-F", "-Q"]
    else if fs == "vfat" then ["mkfs.vfat", "-F", "32"]
    else if fs == "jfs" then ["jfs_mkfs", "-q", "-z", "0x00000000"]
    else if fs == "ext2" then ["mkfs.ext2", "-F"]
    else if fs == "ext3" then ["mkfs.ext3", "-F"]
    else if fs == "ext4" then ["mkfs.ext4", "-F"]
    else []
  }

  predicate HasMkfs(fs: string) {
    fs in {"ntfs", "vfat", "jfs", "ext2", "ext3", "ext4"}
  }

  lemma LabelOption(option: string, word: string)
    requires IsWord(word) && option == " " + word + " "
    ensures Tokens(option) == [word]
  {
    OneWord(word);
    TokensOfParts(" ", word + " ");
    assert option == " " + (word + " ");
  }

  lemma OneWord(a: string)
    requires IsWord(a)
    ensures Tokens(a + " ") == [a]
  {
    assert [a][1..] == [] && Spaced([a]) == a + " " + "" == a + " ";
    SplitUndoesSpaced([a]);
  }

  lemma TwoWords(s: string, a: string, b: string)
    requires IsWord(a) && IsWord(b) && s == a + " " + b + " "
    ensures Tokens(s) == [a, b]
  {
    OneWord(a);
    OneWord(b);
    TokensOfParts(a + " ", b + " ");
    Associate(a + " ", b, " ");
  }

  lemma ThreeWords(s: string, a: string, b: string, c: string)
    requires IsWord(a) && IsWord(b) && IsWord(c) && s == a + " " + b + " " + c + " "
    ensures Tokens(s) == [a, b, c]
  {
    TwoWords(a + " " + b + " ", a, b);
    OneWord(c);
    TokensOfParts(a + " " + b + " ", c + " ");
    Associate(a + " " + b + " ", c, " ");
  }

  lemma FourWords(s: string, a: string, b: string, c: string, d: string)
    requires IsWord(a) && IsWord(b) && IsWord(c) && IsWord(d) && s == a + " " + b + " " + c + " " + d + " "
    ensures Tokens(s) == [a, b, c, d]
  {
    ThreeWords(a + " " + b + " " + c + " ", a, b, c);
    OneWord(d);
    TokensOfParts(a + " " + b + " " + c + " ", d + " ");
    Associate(a + " " + b + " " + c + " ", d, " ");
  }

  lemma NtfsText(s: string)
    requires s == "mkntfs -F -Q "
    ensures Tokens(s) == ["mkntfs", "-F", "-Q"]
  {
    ThreeWords(s, "mkntfs", "-F", "-Q");
  }

  lemma VfatText(s: string)
    requires s == "mkfs.vfat -F 32 "
    ensures Tokens(s) == ["mkfs.vfat", "-F", "32"]
  {
    ThreeWords(s, "mkfs.vfat", "-F", "32");
  }

  lemma JfsText(s: string)
    requires s == "jfs_mkfs -q -z 0x00000000 "
    ensures Tokens(s) == ["jfs_mkfs", "-q", "-z", "0x00000000"]
  {
    FourWords(s, "jfs_mkfs", "-q", "-z", "0x00000000");
  }

  lemma ExtText(s: string, bin: string)
    requires || (s == "mkfs.ext2 -F " && bin == "mkfs.ext2") || (s == "mkfs.ext3 -F " && bin == "mkfs.ext3")
             || (s == "mkfs.ext4 -F " && bin == "mkfs.ext4")
    ensures Tokens(s) == [bin, "-F"]
  {
    TwoWords(s, bin, "-F");
  }

  /** Splitting the text the table holds for fs gives the words above. */
  lemma MkfsTokens(fs: string, s: string)
    requires fs in FORMAT_COMMANDS && s == FORMAT_COMMANDS[fs]
    ensures Tokens(s) == MkfsWords(fs)
  {
    if fs == "ntfs" { NtfsText(s); }
    else if fs == "vfat" { VfatText(s); }
    else if fs == "jfs" { JfsText(s); }
    else if fs == "ext2" { ExtText(s, "mkfs.ext2"); }
    else if fs == "ext3" { ExtText(s, "mkfs.ext3"); }
    else if fs == "ext4" { ExtText(s, "mkfs.ext4"); }
  }

  lemma LabelTokens(fs: string, s: string)
    requires fs in LABEL_OPTIONS && fs != "nofs" && s == LABEL_OPTIONS[fs]
    ensures Tokens(s) == [if fs == "vfat" then "-n" else "-L"]
  {
    if fs == "vfat" { LabelOption(s, "-n"); } else { LabelOption(s, "-L"); }
  }

  /**
   * The vector for every drive, file system and label: the words of the table entry, the
   * device node, and for a non-empty label its option followed by the label as one last entry.
   */
  lemma FormatArgvWrittenOut(drive: string, fs: string, volLabel: string)
    ensures FormatArgv(drive, fs, volLabel) ==
      if !HasMkfs(fs) then []
      else MkfsWords(fs) + ["/dev/" + drive]
           + if volLabel == "" then [] else [if fs == "vfat" then "-n" else "-L", volLabel]
  {
    if fs in FORMAT_COMMANDS {
      MkfsTokens(fs, FORMAT_COMMANDS[fs]);
      if fs != "nofs" { LabelTokens(fs, LABEL_OPTIONS[fs]); }
    }
  }

  lemma TimeoutWords(mode: string, fs: string, s: string)
    requires s == TIMEOUT
    ensures Tokens(s) == ["timeout", "20"]
    ensures TimeoutArgs(mode, fs) == if mode == "auto" && fs != "tntfs" && fs != "tfat" then ["timeout", "20"] else []
  {
    TwoWords(s, "timeout", "20");
  }

  predicate HasFsck(fs: string) {
    fs in {"ntfs", "tntfs", "vfat", "tfat", "jfs", "ext2", "ext3", "ext4"}
  }

  lemma FsckEntryOf(fs: string)
    ensures FsckEntry(fs).Some? <==> HasFsck(fs)
    ensures HasFsck(fs) ==> FsckEntry(fs).value.0 == CheckProgram(fs)
  {
  }

  /** The words that say how to check, for each type and mode. */
  function ModeWords(fs: string, mode: string): seq<string> {
    if fs == "tntfs" then (if mode == "auto" then ["-C", "-at", "20"] else ["-C"])
    else if fs == "tfat" then (if mode == "auto" then ["-a", "-t", "20"] else [])
    else if fs == "jfs" then (if mode == "force" then ["-f", "--omit_journal_replay"] else ["-a"])
    else if fs == "ext2" || fs == "ext3" || fs == "ext4" then (if mode == "force" then ["-yf"] else ["-y"])
    else []
  }

  /** The words that are always there. */
  function OptionWords(fs: string): seq<string> {
    if fs == "ntfs" || fs == "tntfs" then ["-p"]
    else if fs == "vfat" then ["-a"]
    else if fs == "jfs" then ["-Q", "-z", "0x00000000"]
    else []
  }

  lemma TrailingSpace(s: string)
    ensures Tokens(s + " ") == Tokens(s)
  {
    TokensOfParts(s, " ");
    assert (" ")[1..] == "";
  }

  lemma NoWords(s: string)
    requires s == ""
    ensures Tokens(s) == []
  {
  }

  lemma BareWord(s: string)
    requires IsWord(s)
    ensures Tokens(s) == [s]
  {
    TrailingSpace(s);
    OneWord(s);
  }

  lemma BareTwoWords(s: string, a: string, b: string)
    requires IsWord(a) && IsWord(b) && s == a + " " + b
    ensures Tokens(s) == [a, b]
  {
    TrailingSpace(s);
    TwoWords(s + " ", a, b);
  }

  lemma BareThreeWords(s: string, a: string, b: string, c: string)
    requires IsWord(a) && IsWord(b) && IsWord(c) && s == a + " " + b + " " + c
    ensures Tokens(s) == [a, b, c]
  {
    TrailingSpace(s);
    ThreeWords(s + " ", a, b, c);
  }

  lemma TimedModes(s: string)
    requires s == "-C -at 20" || s == "-a -t 20"
    ensures Tokens(s) == if s == "-C -at 20" then ["-C", "-at", "20"] else ["-a", "-t", "20"]
  {
    if s == "-C -at 20" {
      BareThreeWords(s, "-C", "-at", "20");
    } else {
      BareThreeWords(s, "-a", "-t", "20");
    }
  }

  lemma JournalMode(s: string)
    requires s == "-f --omit_journal_replay"
    ensures Tokens(s) == ["-f", "--omit_journal_replay"]
  {
    BareTwoWords(s, "-f", "--omit_journal_replay");
  }

  lemma JfsOptions(s: string)
    requires s == "-Q -z 0x00000000"
    ensures Tokens(s) == ["-Q", "-z", "0x00000000"]
  {
    BareThreeWords(s, "-Q", "-z", "0x00000000");
  }

  lemma OneOption(s: string)
    requires s == "-a" || s == "-p" || s == "-C" || s == "-y" || s == "-yf"
    ensures Tokens(s) == [s]
  {
    BareWord(s);
  }

  lemma ModeTokens(fs: string, mode: string, s: string)
    requires s == FsckMode(fs, mode)
    ensures Tokens(s) == ModeWords(fs, mode)
  {
    if fs == "tntfs" || fs == "tfat" {
      TimedModeTokens(fs, mode, s);
    } else if fs == "jfs" {
      if mode == "force" { JournalMode(s); } else { OneOption(s); }
    } else if fs == "ext2" || fs == "ext3" || fs == "ext4" {
      OneOption(s);
    } else {
      NoWords(s);
    }
  }

  lemma TimedModeTokens(fs: string, mode: string, s: string)
    requires (fs == "tntfs" || fs == "tfat") && s == FsckMode(fs, mode)
    ensures Tokens(s) == ModeWords(fs, mode)
  {
    if mode == "auto" {
      TimedModes(s);
    } else if fs == "tntfs" {
      OneOption(s);
    } else {
      NoWords(s);
    }
  }

  lemma OptionTokens(fs: string, s: string)
    requires fs in FSCK_TABLE && HasFsck(fs) && s == FSCK_TABLE[fs].1
    ensures Tokens(s) == OptionWords(fs)
  {
    if fs == "jfs" {
      JfsOptions(s);
    } else if fs == "ntfs" || fs == "tntfs" || fs == "vfat" {
      OneOption(s);
    } else {
      NoWords(s);
    }
  }

  /** The program that checks each type. */
  function CheckProgram(fs: string): string {
    if fs == "ntfs" || fs == "tntfs" then "ntfsck"
    else if fs == "vfat" then "fsck.vfat"
    else if fs == "tfat" then "fsck.fat"
    else if fs == "jfs" then "jfs_fsck"
    else if fs == "ext2" then "fsck.ext2"
    else if fs == "ext3" then "fsck.ext3"
    else "fsck.ext4"
  }

  /**
   * The vector for every mode, type and partition: nothing for types without a check program;
   * otherwise automatic checks run under timeout unless the program has its own, then come the
   * program, the words of the mode, the fixed options and the device node, in this order.
   */
  lemma FsckArgvWrittenOut(mode: string, fs: string, partition: string)
    ensures FsckArgv(mode, fs, partition) ==
      if !HasFsck(fs) then []
      else (if mode == "auto" && fs != "tntfs" && fs != "tfat" then ["timeout", "20"] else [])
           + [CheckProgram(fs)] + ModeWords(fs, mode) + OptionWords(fs) + ["/dev/" + partition]
  {
    FsckEntryOf(fs);
    if HasFsck(fs) {
      AssembledWords(mode, fs, partition, FsckEntry(fs).value);
    }
  }

  lemma AssembledWords(mode: string, fs: string, partition: string, entry: (string, string))
    requires HasFsck(fs) && FsckEntry(fs) == Some(entry)
    ensures FsckArgv(mode, fs, partition) ==
      (if mode == "auto" && fs != "tntfs" && fs != "tfat" then ["timeout", "20"] else [])
      + [entry.0] + ModeWords(fs, mode) + OptionWords(fs) + ["/dev/" + partition]
  {
    TimeoutWords(mode, fs, TIMEOUT);
    ModeTokens(fs, mode, FsckMode(fs, mode));
    OptionTokens(fs, entry.1);
  }

  lemma CheckProgramExists(mode: string, fs: string, partition: string)
    ensures FsckArgv(mode, fs, partition) != [] <==> HasFsck(fs)
  {
    FsckArgvWrittenOut(mode, fs, partition);
  }

  // ---------------------------------------------------------------- formatting and what follows

  predicate Formattable(st: StorageType) {
    TypeString(st) == "FLASH" || TypeString(st) == "HDD" || TypeString(st) == "EMMC"
  }

  lemma ResolveCases(st: StorageType, current: string, requested: string)
    ensures var fs := Resolve(st, current, requested);
      && (Formattable(st) ==> HasMkfs(fs) && fs != "jfs" && IsSupportedFileSystem(fs, TypeString(st)))
      && (!Formattable(st) ==>
           fs == (if current == "" then "vfat" else current) && !IsSupportedFileSystem(fs, TypeString(st)))
  {
  }

  /** The storage types a file system can be put on, and which it may be there. */
  lemma SupportedExactly(st: StorageType, fs: string)
    ensures IsSupportedFileSystem(fs, TypeString(st)) <==>
      st in {UsbStick, UsbHdd, UsbCardReader, Emmc} && fs in {"vfat", "ntfs", "ext2", "ext3", "ext4"}
  {
  }

  /**
   * A supported request is taken as it is. Any other gives vfat on sticks and card readers, ntfs on
   * hard disks, ext4 on EMMC; elsewhere the type that is there, or vfat where none is.
   */
  lemma ResolveExact(st: StorageType, current: string, requested: string)
    ensures var fs := Resolve(st, current, requested);
      && (st in {UsbStick, UsbHdd, UsbCardReader, Emmc} && requested in {"vfat", "ntfs", "ext2", "ext3", "ext4"} ==>
            fs == requested)
      && (requested !in {"vfat", "ntfs", "ext2", "ext3", "ext4"} ==>
            (st in {UsbStick, UsbCardReader} ==> fs == "vfat")
            && (st == UsbHdd ==> fs == "ntfs") && (st == Emmc ==> fs == "ext4"))
      && (st !in {UsbStick, UsbHdd, UsbCardReader, Emmc} ==> fs == if current == "" then "vfat" else current)
  {
    SupportedExactly(st, requested);
  }

  /** The program of the type, the device node and the label, each at its place, and the options between them. */
  lemma LabelArgvWrittenOut(fs: string, drive: string, volLabel: string)
    ensures var argv := LabelArgv(fs, drive, volLabel);
      && (argv == [] <==> fs !in {"ntfs", "tntfs", "vfat", "tfat", "ext2", "ext3", "ext4"})
      && (fs in {"ntfs", "tntfs"} ==>
           && |argv| == 4 && argv[0] == "ntfslabel" && argv[1] == "-f" && argv[2] == "/dev/" + drive
           && argv[3] == volLabel)
      && (fs in {"vfat", "tfat"} ==>
           && |argv| == 5 && argv[0] == "fatlabel" && argv[1] == "-f" && argv[2] == "-l" && argv[3] == volLabel
           && argv[4] == "/dev/" + drive)
      && (fs in {"ext2", "ext3", "ext4"} ==>
           |argv| == 3 && argv[0] == "e2label" && argv[1] == "/dev/" + drive && argv[2] == volLabel)
  {
  }

  lemma LabelArgvExists(fs: string, drive: string, volLabel: string)
    ensures LabelArgv(fs, drive, volLabel) != [] <==> HasFsck(fs) && fs != "jfs"
  {
  }

  /**
   * Whatever file system is asked for, a FLASH, HDD or EMMC partition resolves to one that has
   * a mkfs vector, is supported, and has a label vector and in every mode a check vector. On
   * any other storage type that holds exactly for an unset, vfat, ntfs or ext type, except
   * that nothing is supported there; mkfs alone exists for jfs too.
   */
  lemma FormatClosure(st: StorageType, current: string, requested: string,
                      drive: string, volLabel: string, later: string, mode: string)
    ensures var fs := Resolve(st, current, requested);
      && (FormatArgv(drive, fs, volLabel) != [] <==>
           Formattable(st) || current == "" || HasMkfs(current))
      && (FormatArgv(drive, fs, volLabel) != [] ==>
           && fs != ""
           && FsckArgv(mode, fs, drive) != []
           && (LabelArgv(fs, drive, later) != [] <==> fs != "jfs")
           && (IsSupportedFileSystem(fs, TypeString(st)) <==> Formattable(st)))
      && (Formattable(st) ==> fs != "jfs")
  {
    var fs := Resolve(st, current, requested);
    ResolveCases(st, current, requested);
    LabelArgvExists(fs, drive, later);
    FormatArgvWrittenOut(drive, fs, volLabel);
    CheckProgramExists(mode, fs, drive);
  }

  lemma LabelComesLast(drive: string, fs: string, volLabel: string, front: seq<string>)
    requires volLabel != "" && front == MkfsWords(fs) + ["/dev/" + drive] + [if fs == "vfat" then "-n" else "-L"]
    ensures FormatArgv(drive, fs, volLabel) == if HasMkfs(fs) then front + [volLabel] else []
  {
    FormatArgvWrittenOut(drive, fs, volLabel);
  }

  /** The text of a label reaches exactly the last entry, whatever it contains. */
  lemma LabelIsOneArgument(drive: string, fs: string, label1: string, label2: string)
    requires label1 != "" && label2 != ""
    ensures var a, b := FormatArgv(drive, fs, label1), FormatArgv(drive, fs, label2);
      && |a| == |b|
      && (a != [] ==> a[|a| - 1] == label1 && b[|b| - 1] == label2 && a[..|a| - 1] == b[..|b| - 1])
  {
    var front := MkfsWords(fs) + ["/dev/" + drive] + [if fs == "vfat" then "-n" else "-L"];
    LabelComesLast(drive, fs, label1, front);
    LabelComesLast(drive, fs, label2, front);
  }
}
