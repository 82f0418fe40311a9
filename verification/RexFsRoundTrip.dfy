/** What a file reads back as: write and cat, writehex and the program loader. */
module RexFsRoundTrip {
  import opened Machine
  import opened RexFsLayout
  import opened RexFsBlocks
  import opened RexFsTree
  import opened RexFsModel

  // ----- cat and the loader

  datatype Printed = Refused(why: Outcome) | Text(bytes: seq<byte>)

  /** What cat prints: the contents and a newline, or nothing for an empty file. */
  function Cat(fs: Fs, name: CString): Printed {
    if !fs.mounted then Refused(NotMounted)
    else if name == [] then Refused(Usage)
    else
      var s := Find(fs.inodes, FileNamed(fs.cwd, name));
      if s == MAX_INODES then Refused(NotFound)
      else if fs.inodes[s].size == 0 then Text([])
      else Text(Contents(fs.data, fs.inodes[s]) + [NEWLINE])
  }

  datatype Verdict = BadSignature | EntryOutOfBounds | Runnable(entry: nat)

  /** The loader's checks on a filled buffer: the NEX! signature and the entry offset. */
  function Inspect(image: seq<byte>): Verdict
    requires |image| >= 8
  {
    if image[..4] != [0x4E, 0x45, 0x58, 0x21] then BadSignature
    else if image[6] as int + 0x100 * (image[7] as int) >= |image| then EntryOutOfBounds
    else Runnable(image[6] as int + 0x100 * (image[7] as int))
  }

  datatype Loaded = LoadRefused(why: Outcome) | Image(bytes: seq<byte>, verdict: Verdict)

  /** What exec may have in memory: the file's contents, then whatever the buffer held before. */
  ghost predicate LoadsAs(fs: Fs, name: CString, bufferOk: bool, r: Loaded) {
    if !fs.mounted then r == LoadRefused(NotMounted)
    else if name == [] then r == LoadRefused(Usage)
    else
      var s := Find(fs.inodes, FileNamed(fs.cwd, name));
      if s == MAX_INODES then r == LoadRefused(NotFound)
      else if fs.inodes[s].size < 8 then r == LoadRefused(NotExecutable)
      else if !bufferOk then r == LoadRefused(NoBuffer)
      else
        && r.Image? && |r.bytes| == fs.inodes[s].size
        && Contents(fs.data, fs.inodes[s]) <= r.bytes
        && r.verdict == Inspect(r.bytes)
  }

  // ----- lookups survive a write

  lemma FindCongruent(t: Table, t': Table, q: Query)
    requires forall i :: 0 <= i < MAX_INODES ==> (Matches(q, t[i]) <==> Matches(q, t'[i]))
    ensures Find(t, q) == Find(t', q)
  {
    var r, r' := Find(t, q), Find(t', q);
    assert r < MAX_INODES ==> Matches(q, t'[r]);
    assert r' < MAX_INODES ==> Matches(q, t[r']);
  }

  lemma FindInSameTree(t: Table, t': Table, s: nat, dir: u16, name: CString)
    requires s < MAX_INODES && SameTree(t, t', s)
    ensures Find(t', FileNamed(dir, name)) == Find(t, FileNamed(dir, name))
  {
    FindCongruent(t, t', FileNamed(dir, name));
  }

  /** The bytes of a payload that survive a write to slot s: all of it, or all the blocks that were free. */
  ghost function Surviving(fs: Fs, s: nat, payload: seq<byte>): seq<byte>
    requires s < MAX_INODES
  {
    payload[..Min(|payload|, SECTOR_SIZE * Capacity(FreeAfterRelease(fs, s)))]
  }

  /** A successful write has stored exactly the surviving bytes; only a full disk shortens them. */
  lemma StoredBytes(fs: Fs, s: nat, payload: seq<byte>)
    requires Writable(fs, s, payload)
    ensures var fs' := Store(fs, s, payload);
      && Contents(fs'.data, fs'.inodes[s]) == Surviving(fs, s, payload)
      && (fs'.inodes[s].size == 0 <==> Surviving(fs, s, payload) == [])
      && (BlocksFor(|payload|) <= Capacity(FreeAfterRelease(fs, s)) ==>
            fs'.inodes[s].size == |payload| && Surviving(fs, s, payload) == payload)
  {
    StoreThenRead(fs, s, payload);
    StoreLoop(fs, s, payload);
  }

  /** cat on a file that was just overwritten. */
  lemma StoreThenCat(fs: Fs, file: CString, s: nat, payload: seq<byte>)
    requires Writable(fs, s, payload) && s == Find(fs.inodes, FileNamed(fs.cwd, file)) && file != []
    ensures var kept := Surviving(fs, s, payload);
      Cat(Store(fs, s, payload), file) == Text(if kept == [] then [] else kept + [NEWLINE])
  {
    StoreKeeps(fs, s, payload);
    StoredBytes(fs, s, payload);
    FindInSameTree(fs.inodes, Store(fs, s, payload).inodes, s, fs.cwd, file);
  }

  /** write then cat, at the level of the two commands. */
  lemma WriteThenCat(fs: Fs, args: CString, s: nat)
    requires Inv(fs) && s == WriteTarget(fs, args) && s < MAX_INODES && !RefusedLate(Write(args))
    ensures var file, payload := ParseArgs(args).file, ParseArgs(args).payload;
      var kept := Surviving(fs, s, payload);
      Cat(Exec(fs, Write(args)).fs, file) == Text(if kept == [] then [] else kept + [NEWLINE])
  {
    var file, payload := ParseArgs(args).file, ParseArgs(args).payload;
    assert Matches(FileNamed(fs.cwd, file), fs.inodes[s]);
    NamesAreNotEmpty(fs.inodes, s);
    assert Exec(fs, Write(args)).fs == Store(fs, s, payload);
    StoreThenCat(fs, file, s, payload);
  }

  lemma NamesAreNotEmpty(t: Table, s: nat)
    requires Forest(t) && s < MAX_INODES && t[s].id != 0
    ensures t[s].name != []
  {
    assert SlotOk(t, s);
  }

  // ----- hexadecimal text

  function HexChar(v: nat, upper: bool): Char
    requires v < 16
  {
    if v < 10 then 48 + v else if upper then 55 + v else 87 + v
  }

  function Blanks(n: nat): CString {
    seq(n, _ => SPACE)
  }

  /** Bytes spelled as hex pairs, with gaps[i] blanks before pair i, upper[i] choosing the letter case. */
  function Spell(bytes: seq<byte>, gaps: seq<nat>, upper: seq<bool>): CString
    requires |gaps| == |upper| == |bytes|
  {
    if bytes == [] then []
    else Blanks(gaps[0]) + [HexChar(bytes[0] / 16, upper[0]), HexChar(bytes[0] % 16, upper[0])]
         + Spell(bytes[1..], gaps[1..], upper[1..])
  }

  lemma {:induction false} HexSkipsBlanks(n: nat, s: CString)
    ensures HexOf(Blanks(n) + s) == HexOf(s)
  {
    if n == 0 {
      assert Blanks(n) + s == s;
    } else {
      assert (Blanks(n) + s)[1..] == Blanks(n - 1) + s;
      HexSkipsBlanks(n - 1, s);
    }
  }

  lemma HexReadsPair(b: byte, upper: bool, s: CString)
    ensures HexOf([HexChar(b / 16, upper), HexChar(b % 16, upper)] + s) == [b] + HexOf(s)
  {
    var p := [HexChar(b / 16, upper), HexChar(b % 16, upper)];
    assert (p + s)[2..] == s;
  }

  /** Decoding undoes spelling, whatever the spacing between pairs, the letter case and trailing blanks. */
  lemma {:induction false} HexRoundTrip(bytes: seq<byte>, gaps: seq<nat>, upper: seq<bool>, trailing: nat)
    requires |gaps| == |upper| == |bytes|
    ensures HexOf(Spell(bytes, gaps, upper) + Blanks(trailing)) == bytes
  {
    var end := Blanks(trailing);
    if bytes == [] {
      assert Spell(bytes, gaps, upper) + end == end + [];
      HexSkipsBlanks(trailing, []);
    } else {
      var rest := Spell(bytes[1..], gaps[1..], upper[1..]) + end;
      var p := [HexChar(bytes[0] / 16, upper[0]), HexChar(bytes[0] % 16, upper[0])];
      assert Spell(bytes, gaps, upper) + end == Blanks(gaps[0]) + (p + rest);
      HexSkipsBlanks(gaps[0], p + rest);
      HexReadsPair(bytes[0], upper[0], rest);
      HexRoundTrip(bytes[1..], gaps[1..], upper[1..], trailing);
    }
  }

  lemma {:induction false} NameEndOf(file: CString, rest: CString, i: nat)
    requires SPACE !in file && i <= |file| <= 31
    ensures NameEnd(file + [SPACE] + rest, i) == |file|
    decreases |file| - i
  {
    if i < |file| {
      assert (file + [SPACE] + rest)[i] == file[i];
      NameEndOf(file, rest, i + 1);
    }
  }

  /** A command line of a file name, a blank and a text parses into those two, leading blanks dropped. */
  lemma ParseLine(file: CString, text: CString)
    requires SPACE !in file && |file| <= 31
    ensures ParseArgs(file + [SPACE] + text).Args?
    ensures var a := ParseArgs(file + [SPACE] + text);
      && a.file == file
      && (exists n: nat :: text == Blanks(n) + a.payload)
      && (text != [] && text[0] != SPACE ==> a.payload == text)
  {
    var args := file + [SPACE] + text;
    NameEndOf(file, text, 0);
    var k := SkipSpaces(args, |file|);
    assert k > |file| by {
      assert args[|file|] == SPACE;
    }
    forall i | 0 <= i < k - |file| - 1
      ensures text[i] == SPACE
    {
      assert text[i] == args[|file| + 1 + i];
    }
    assert text[k - |file| - 1..] == args[k..];
    assert text == Blanks(k - |file| - 1) + args[k..];
  }

  /** The file that a command line of a name, a blank and a text writes to. */
  lemma TargetOfLine(fs: Fs, file: CString, text: CString)
    requires fs.mounted && SPACE !in file && |file| <= 31
    ensures WriteTarget(fs, file + [SPACE] + text) == Find(fs.inodes, FileNamed(fs.cwd, file))
  {
    ParseLine(file, text);
    assert |file + [SPACE] + text| > 0;
  }

  /** The payload that writehex decodes from a spelled command line. */
  lemma HexLine(file: CString, bytes: seq<byte>, gaps: seq<nat>, upper: seq<bool>, trailing: nat)
    requires SPACE !in file && |file| <= 31 && |gaps| == |upper| == |bytes|
    ensures var a := ParseArgs(file + [SPACE] + (Spell(bytes, gaps, upper) + Blanks(trailing)));
      a.Args? && a.file == file && HexOf(a.payload) == bytes
  {
    var text := Spell(bytes, gaps, upper) + Blanks(trailing);
    ParseLine(file, text);
    var a := ParseArgs(file + [SPACE] + text);
    var n: nat :| text == Blanks(n) + a.payload;
    HexSkipsBlanks(n, a.payload);
    HexRoundTrip(bytes, gaps, upper, trailing);
  }

  /** Storing a payload that fits makes the named file hold exactly it. */
  lemma StoreThenLoad(fs: Fs, file: CString, s: nat, bytes: seq<byte>)
    requires Writable(fs, s, bytes) && s == Find(fs.inodes, FileNamed(fs.cwd, file))
    requires BlocksFor(|bytes|) <= Capacity(FreeAfterRelease(fs, s))
    ensures var fs' := Store(fs, s, bytes);
      && Find(fs'.inodes, FileNamed(fs'.cwd, file)) == s
      && fs'.inodes[s].size == |bytes| && Contents(fs'.data, fs'.inodes[s]) == bytes
  {
    StoreKeeps(fs, s, bytes);
    StoredBytes(fs, s, bytes);
    FindInSameTree(fs.inodes, Store(fs, s, bytes).inodes, s, fs.cwd, file);
  }

  /** A command line that is accepted stores the bytes it spells. */
  lemma HexLineStores(fs: Fs, args: CString, bytes: seq<byte>, s: nat)
    requires Inv(fs) && fs.mounted && args != [] && BlocksFor(|bytes|) <= MAX_FILE_BLOCKS
    requires var a := ParseArgs(args);
      a.Args? && HexOf(a.payload) == bytes && s == Find(fs.inodes, FileNamed(fs.cwd, a.file)) < MAX_INODES
    ensures Exec(fs, WriteHex(args, true)).fs == Store(fs, s, bytes)
  {
  }

  /** writehex then load: the loader's buffer is exactly the bytes that were spelled. */
  lemma HexLoadRoundTrip(fs: Fs, file: CString, bytes: seq<byte>, gaps: seq<nat>, upper: seq<bool>, trailing: nat)
    requires Inv(fs) && fs.mounted && SPACE !in file && |file| <= 31
    requires |gaps| == |upper| == |bytes| && BlocksFor(|bytes|) <= MAX_FILE_BLOCKS
    requires var s := Find(fs.inodes, FileNamed(fs.cwd, file));
      s < MAX_INODES && BlocksFor(|bytes|) <= Capacity(FreeAfterRelease(fs, s))
    ensures var s := Find(fs.inodes, FileNamed(fs.cwd, file));
      var args := file + [SPACE] + (Spell(bytes, gaps, upper) + Blanks(trailing));
      var fs' := Exec(fs, WriteHex(args, true)).fs;
      && Find(fs'.inodes, FileNamed(fs'.cwd, file)) == s
      && fs'.inodes[s].size == |bytes| && Contents(fs'.data, fs'.inodes[s]) == bytes
      && (forall r :: LoadsAs(fs', file, true, r) && |bytes| >= 8 && file != [] ==>
            r == Image(bytes, Inspect(bytes)))
  {
    var s := Find(fs.inodes, FileNamed(fs.cwd, file));
    var args := file + [SPACE] + (Spell(bytes, gaps, upper) + Blanks(trailing));
    HexLine(file, bytes, gaps, upper, trailing);
    HexLineStores(fs, args, bytes, s);
    StoreThenLoad(fs, file, s, bytes);
  }
}
