/**
 * The file layer of the CLI backend's os module: how open() decodes its
 * flags, the two file flavours (text with CRLF translation, and binary), the
 * descriptor table with its never-reused counter, and lseek.
 *
 * Files on disk are a map from name to contents; a stream is a name, a
 * position and the access it was opened with, so writes through one
 * descriptor land in the shared contents.  Console descriptors 0, 1 and 2
 * read from a standard-input text and write to standard-output and
 * standard-error texts.
 */
module CliFile {
  import opened Wrappers
  import opened Bytes

  // ---------------------------------------------------------------- open flags

  /** The Windows values of the open flags, used on every platform. */
  const O_RDONLY: int := 0x0000
  const O_WRONLY: int := 0x0001
  const O_RDWR: int := 0x0002
  const O_APPEND: int := 0x0008
  const O_CREAT: int := 0x0100
  const O_TRUNC: int := 0x0200
  const O_TEXT: int := 0x4000
  const O_BINARY: int := 0x8000

  /**
   * `flags & mask != 0` for a single-bit mask: the bit is set exactly when
   * flags / mask is odd.  Floor division keeps the two's-complement reading
   * for negative flags.
   */
  predicate Has(flags: int, mask: int)
    requires mask > 0
  {
    (flags / mask) % 2 == 1
  }

  datatype FileAccess = Read | Write | ReadWrite
  datatype FileMode = Open | OpenOrCreate | Create | Append

  /** O_RDWR wins over O_WRONLY; with neither the file is opened for reading. */
  function GetFileAccess(flags: int): (a: FileAccess)
    ensures a == ReadWrite <==> Has(flags, O_RDWR)
    ensures a == Write <==> !Has(flags, O_RDWR) && Has(flags, O_WRONLY)
    ensures a == Read <==> !Has(flags, O_RDWR) && !Has(flags, O_WRONLY)
  {
    if Has(flags, O_RDWR) then ReadWrite
    else if Has(flags, O_WRONLY) then Write
    else Read
  }

  /** O_APPEND wins over O_TRUNC, which wins over O_CREAT; with none the file must exist. */
  function GetFileMode(flags: int): (m: FileMode)
    ensures m == Append <==> Has(flags, O_APPEND)
    ensures m == Create <==> !Has(flags, O_APPEND) && Has(flags, O_TRUNC)
    ensures m == OpenOrCreate <==> !Has(flags, O_APPEND) && !Has(flags, O_TRUNC) && Has(flags, O_CREAT)
    ensures m == Open <==> !Has(flags, O_APPEND) && !Has(flags, O_TRUNC) && !Has(flags, O_CREAT)
  {
    if Has(flags, O_APPEND) then Append
    else if Has(flags, O_TRUNC) then Create
    else if Has(flags, O_CREAT) then OpenOrCreate
    else Open
  }

  datatype Flavour = CrlfText | Binary

  /** CRLF translation only when O_BINARY is clear and the platform's newline is CR LF. */
  function GetFlavour(flags: int, newline: string): (f: Flavour)
    ensures f == CrlfText <==> !Has(flags, O_BINARY) && newline == "\r\n"
  {
    if !Has(flags, O_BINARY) && newline == "\r\n" then CrlfText else Binary
  }

  /** The flag word a caller passes for an access, a mode and (optionally) binary. */
  function MakeFlags(a: FileAccess, m: FileMode, binary: bool): int
  {
    (match a case Read => O_RDONLY case Write => O_WRONLY case ReadWrite => O_RDWR)
    + (match m case Open => 0 case OpenOrCreate => O_CREAT case Create => O_CREAT + O_TRUNC case Append => O_APPEND + O_CREAT)
    + (if binary then O_BINARY else 0)
  }

  /** Decoding the flags a caller builds gives back the access, the mode and the flavour it asked for. */
  lemma FlagsRoundTrip(a: FileAccess, m: FileMode, binary: bool, newline: string)
    ensures GetFileAccess(MakeFlags(a, m, binary)) == a
    ensures GetFileMode(MakeFlags(a, m, binary)) == m
    ensures GetFlavour(MakeFlags(a, m, binary), newline) == (if binary || newline != "\r\n" then Binary else CrlfText)
  {
  }

  // ---------------------------------------------------------------- text encodings

  /** A character written to a byte stream keeps its low 8 bits, as the (byte) cast does. */
  function Low(ch: char): byte
  {
    (ch as int) % 256
  }

  function Count(text: seq<char>, c: char): (n: nat)
    ensures n <= |text|
  {
    if |text| == 0 then 0 else (if text[0] == c then 1 else 0) + Count(text[1..], c)
  }

  /** Text that reads back unchanged: no carriage return, every character below 256. */
  predicate Plain(text: seq<char>)
  {
    forall i :: 0 <= i < |text| ==> text[i] != '\r' && (text[i] as int) < 256
  }

  /** CRLF write: each newline becomes CR LF, every other character one byte, in order. */
  function CrlfEncode(text: seq<char>): (r: seq<byte>)
    ensures |r| == |text| + Count(text, '\n')
  {
    if |text| == 0 then []
    else (if text[0] == '\n' then [13] else []) + [Low(text[0])] + CrlfEncode(text[1..])
  }

  /** Encoding distributes over concatenation: the write loop may proceed character by character. */
  lemma {:induction false} CrlfEncodeAppend(a: seq<char>, b: seq<char>)
    ensures CrlfEncode(a + b) == CrlfEncode(a) + CrlfEncode(b)
    decreases |a|
  {
    if |a| == 0 {
      assert a + b == b;
    } else {
      assert (a + b)[0] == a[0];
      assert (a + b)[1..] == a[1..] + b;
      CrlfEncodeAppend(a[1..], b);
    }
  }

  /** The number of bytes a read of `count` takes from `input`: none for a count that is not positive. */
  function Taken(input: seq<byte>, count: int): (n: nat)
    ensures n <= |input| && (count >= 0 ==> n <= count)
  {
    if count <= 0 then 0 else if count < |input| then count else |input|
  }

  /**
   * CRLF read of `count` bytes, `pending` telling whether a CR is waiting.
   * A CR is held back; the next byte, if it is LF, replaces it, otherwise
   * the CR is emitted before that byte.  A CR followed by another CR, or
   * held back when the count or the input runs out, is dropped.
   */
  function CrlfDecode(input: seq<byte>, count: int, pending: bool): (r: seq<char>)
    ensures |r| <= Taken(input, count) + (if pending then 1 else 0)
    decreases |input|
  {
    if count <= 0 || |input| == 0 then []
    else if input[0] == 13 then CrlfDecode(input[1..], count - 1, true)
    else
      (if pending && input[0] != 10 then ['\r'] else []) + [input[0] as char] + CrlfDecode(input[1..], count - 1, false)
  }

  /** CR LF decodes to a newline. */
  lemma DecodeCrLf(rest: seq<byte>, count: int, pending: bool)
    requires count >= 2
    ensures CrlfDecode([13, 10] + rest, count, pending) == ['\n'] + CrlfDecode(rest, count - 2, false)
  {
    var s := [13, 10] + rest;
    assert s[1..] == [10] + rest && s[1..][1..] == rest;
  }

  /** A CR before an ordinary byte is kept, followed by that byte. */
  lemma DecodeLoneCr(x: byte, rest: seq<byte>, count: int)
    requires count >= 2 && x != 10 && x != 13
    ensures CrlfDecode([13, x] + rest, count, false) == ['\r', x as char] + CrlfDecode(rest, count - 2, false)
  {
    var s := [13, x] + rest;
    assert s[1..] == [x] + rest && s[1..][1..] == rest;
  }

  /** A CR followed by another CR is lost; the second one is held back in its place. */
  lemma DecodeCrCr(rest: seq<byte>, count: int, pending: bool)
    requires count >= 2
    ensures CrlfDecode([13, 13] + rest, count, pending) == CrlfDecode([13] + rest, count - 1, true)
  {
    var s := [13, 13] + rest;
    assert s[1..] == [13] + rest;
  }

  /** A CR held back at the end of the input or of the count is not emitted. */
  lemma DecodeTrailingCr(rest: seq<byte>, pending: bool)
    ensures CrlfDecode([13], 5, pending) == []
    ensures CrlfDecode([13] + rest, 1, pending) == []
  {
    assert ([13] + rest)[1..] == rest;
  }

  /** Everything CRLF-written reads back as the original text, for text with no CR and 8-bit characters. */
  lemma {:induction false} CrlfRoundTrip(text: seq<char>, count: int)
    requires Plain(text) && count >= |CrlfEncode(text)|
    ensures CrlfDecode(CrlfEncode(text), count, false) == text
    decreases |text|
  {
    if |text| > 0 {
      var rest := text[1..];
      assert Plain(rest) by {
        assert forall i :: 0 <= i < |rest| ==> rest[i] == text[i + 1];
      }
      var e := CrlfEncode(rest);
      var c := text[0];
      assert (Low(c) as char) == c;
      if c == '\n' {
        assert CrlfEncode(text) == [13, 10] + e;
        DecodeCrLf(e, count, false);
        CrlfRoundTrip(rest, count - 2);
      } else {
        assert CrlfEncode(text) == [Low(c)] + e;
        DecodeOrdinary(Low(c), e, count);
        CrlfRoundTrip(rest, count - 1);
      }
    }
  }

  /** A byte other than CR, with no CR pending, reads as itself. */
  lemma DecodeOrdinary(x: byte, rest: seq<byte>, count: int)
    requires count >= 1 && x != 13
    ensures CrlfDecode([x] + rest, count, false) == [x as char] + CrlfDecode(rest, count - 1, false)
  {
    assert ([x] + rest)[1..] == rest;
  }

  /**
   * The read loop itself: at most `count` bytes, one ReadByte each, a flag
   * for the pending CR.  It computes the functional decoding and consumes
   * exactly the bytes that decoding takes.
   */
  method CrlfReadLoop(input: seq<byte>, count: int) returns (text: seq<char>, consumed: nat)
    ensures text == CrlfDecode(input, count, false)
    ensures consumed == Taken(input, count)
    ensures count >= 0 ==> |text| <= count
  {
    assert |CrlfDecode(input, count, false)| <= Taken(input, count);
    text := [];
    var pending := false;
    var left := count;
    var pos := 0;
    while left > 0 && pos < |input|
      invariant 0 <= pos <= |input|
      invariant if count > 0 then pos <= count else pos == 0
      invariant left == count - pos
      invariant text + CrlfDecode(input[pos..], left, pending) == CrlfDecode(input, count, false)
      decreases |input| - pos
    {
      var ch := input[pos];
      ghost var next := text + (if ch == 13 then [] else (if pending && ch != 10 then ['\r'] else []) + [ch as char]);
      DecodeStep(text, input, pos, left, pending);
      pos := pos + 1;
      if ch == 13 {
        pending := true;
      } else {
        if pending && ch != 10 {
          text := text + ['\r'];
        }
        text := text + [ch as char];
        pending := false;
      }
      assert text == next;
      left := left - 1;
    }
    assert CrlfDecode(input[pos..], left, pending) == [];
    assert text + [] == text;
    consumed := pos;
  }

  /** One step of the read loop: the byte at pos moves from the input to the text read so far. */
  lemma DecodeStep(text: seq<char>, input: seq<byte>, pos: nat, left: int, pending: bool)
    requires pos < |input| && left > 0
    ensures text + CrlfDecode(input[pos..], left, pending) ==
      text + (if input[pos] == 13 then [] else (if pending && input[pos] != 10 then ['\r'] else []) + [input[pos] as char])
      + CrlfDecode(input[pos + 1..], left - 1, input[pos] == 13)
  {
    assert input[pos..][0] == input[pos] && input[pos..][1..] == input[pos + 1..];
  }

  /** Binary write: one byte per character, its low 8 bits. */
  function BinaryEncode(text: seq<char>): (r: seq<byte>)
    ensures |r| == |text|
  {
    seq(|text|, i requires 0 <= i < |text| => Low(text[i]))
  }

  /** Binary read: one character per byte. */
  function BinaryDecode(bytes: seq<byte>): (r: seq<char>)
    ensures |r| == |bytes|
  {
    seq(|bytes|, i requires 0 <= i < |bytes| => bytes[i] as char)
  }

  /** Binary write and read are inverse for characters below 256, CR included. */
  lemma BinaryRoundTrip(text: seq<char>)
    requires forall i :: 0 <= i < |text| ==> (text[i] as int) < 256
    ensures BinaryDecode(BinaryEncode(text)) == text
  {
    var r := BinaryDecode(BinaryEncode(text));
    forall i | 0 <= i < |text|
      ensures r[i] == text[i]
    {
      assert (Low(text[i]) as char) == text[i];
    }
  }

  // ---------------------------------------------------------------- the descriptor table

  /**
   * An open stream: the file's name, the position, the access it was opened
   * with, and for append mode the end of the file at opening, below which
   * the stream cannot seek.
   */
  datatype Stream = Stream(name: string, pos: nat, access: FileAccess, floor: nat)

  /** Descriptors 0..2 are the console; the others are disk files of one flavour. */
  datatype File = Console(std: nat) | Disk(flavour: Flavour, stream: Stream)

  datatype Os = Os(
    fds: map<int, File>,
    fdcount: int,
    disk: map<string, seq<byte>>,
    stdin: seq<char>,
    stdout: seq<char>,
    stderr: seq<char>)

  /**
   * What the operations raise: the OSErrors of the module, and the .NET
   * exceptions that escape it (a missing key, the null stream of a console
   * descriptor, a negative buffer size, an argument combination FileStream
   * refuses, a seek before the start).
   */
  datatype OsError =
    | EBADF
    | ENOENT
    | KeyNotFound
    | NullReference
    | ArgumentOutOfRange
    | Overflow
    | InvalidArgument
    | SeekBeforeBegin

  /** The table before any open: the three console descriptors, the counter at 2. */
  function Init(disk: map<string, seq<byte>>, stdin: seq<char>): (os: Os)
    ensures Inv(os) && os.fds.Keys == {0, 1, 2} && os.fdcount == 2
  {
    Os(map[0 := Console(0), 1 := Console(1), 2 := Console(2)], 2, disk, stdin, [], [])
  }

  /**
   * The table's invariant: the console descriptors are always there, every
   * descriptor is at most the counter, disk descriptors lie above 2 and
   * name existing files.
   */
  predicate Inv(os: Os)
  {
    os.fdcount >= 2 &&
    (forall k :: 0 <= k <= 2 ==> k in os.fds && os.fds[k] == Console(k)) &&
    (forall fd :: fd in os.fds ==> 0 <= fd <= os.fdcount) &&
    (forall fd :: fd in os.fds && os.fds[fd].Disk? ==> fd > 2 && os.fds[fd].stream.name in os.disk) &&
    (forall fd :: fd in os.fds && os.fds[fd].Console? ==> os.fds[fd] == Console(fd))
  }

  function CanRead(a: FileAccess): bool { a != Write }
  function CanWrite(a: FileAccess): bool { a != Read }

  /**
   * The FileStream constructor: a missing file for Open is ENOENT (the only
   * exception the module turns into an OSError); Append other than
   * write-only, and Create for read-only, are refused.  Create truncates,
   * the creating modes make a missing file, Append starts at the end.
   */
  function OpenStream(disk: map<string, seq<byte>>, name: string, m: FileMode, a: FileAccess): (r: Result<(map<string, seq<byte>>, Stream), OsError>)
    ensures r.Ok? ==> name in r.value.0 && r.value.1.name == name && r.value.1.access == a
    ensures r.Ok? ==> r.value.0.Keys == disk.Keys + {name}
    ensures r.Ok? ==> forall n :: n in disk && n != name ==> r.value.0[n] == disk[n]
    ensures r == Err(ENOENT) <==> m == Open && name !in disk
  {
    if m == Append && a != Write then Err(InvalidArgument)
    else if m == Create && a == Read then Err(InvalidArgument)
    else if m == Open && name !in disk then Err(ENOENT)
    else
      var data := if m == Create || name !in disk then [] else disk[name];
      var at := if m == Append then |data| else 0;
      Ok((disk[name := data], Stream(name, at, a, at)))
  }

  /** ll_os_open: a fresh descriptor one above the counter; the mode argument is ignored. */
  function OsOpen(os: Os, name: string, flags: int, newline: string): (r: Result<(Os, int), OsError>)
    ensures r.Ok? ==> r.value.1 == os.fdcount + 1 && r.value.0.fdcount == r.value.1
    ensures r.Ok? ==> r.value.1 in r.value.0.fds && r.value.0.fds[r.value.1].Disk?
    ensures r.Ok? ==> r.value.0.fds == os.fds[r.value.1 := r.value.0.fds[r.value.1]]
    ensures r.Ok? ==> r.value.0.stdin == os.stdin && r.value.0.stdout == os.stdout && r.value.0.stderr == os.stderr
  {
    var (disk, stream) :- OpenStream(os.disk, name, GetFileMode(flags), GetFileAccess(flags));
    var fd := os.fdcount + 1;
    Ok((os.(fds := os.fds[fd := Disk(GetFlavour(flags, newline), stream)], fdcount := fd, disk := disk), fd))
  }

  /** getfd: the Dictionary lookup, which raises for a descriptor that is not open. */
  function GetFd(os: Os, fd: int): (r: Result<File, OsError>)
    ensures r.Ok? <==> fd in os.fds
    ensures r.Ok? ==> r.value == os.fds[fd]
    ensures r.Err? ==> r.error == KeyNotFound
  {
    if fd in os.fds then Ok(os.fds[fd]) else Err(KeyNotFound)
  }

  /** ll_os_close: the console descriptors have no stream to close, so they stay. */
  function OsClose(os: Os, fd: int): (r: Result<Os, OsError>)
    ensures r.Ok? <==> fd in os.fds && os.fds[fd].Disk?
    ensures r == Err(NullReference) <==> fd in os.fds && os.fds[fd].Console?
    ensures r.Ok? ==> r.value == os.(fds := os.fds - {fd})
  {
    var f :- GetFd(os, fd);
    if f.Console? then Err(NullReference) else Ok(os.(fds := os.fds - {fd}))
  }

  /** `bytes` written over `data` at `pos`, the gap before `pos` (after a seek past the end) zero-filled. */
  function WriteAt(data: seq<byte>, pos: nat, bytes: seq<byte>): (r: seq<byte>)
    ensures |r| == if pos + |bytes| > |data| then pos + |bytes| else |data|
    ensures r[pos..pos + |bytes|] == bytes
    ensures forall i :: 0 <= i < |data| && !(pos <= i < pos + |bytes|) ==> r[i] == data[i]
  {
    var head := if pos <= |data| then data[..pos] else data + seq(pos - |data|, _ => 0);
    var tail := if pos + |bytes| < |data| then data[pos + |bytes|..] else [];
    head + bytes + tail
  }

  /** ll_os_write: the text as the descriptor's flavour encodes it; the result is the number of characters. */
  function OsWrite(os: Os, fd: int, buffer: seq<char>): (r: Result<(Os, int), OsError>)
    ensures r.Ok? ==> r.value.1 == |buffer| && r.value.0.fds.Keys == os.fds.Keys && r.value.0.fdcount == os.fdcount
    ensures r.Ok? && Inv(os) ==> r.value.0.disk.Keys == os.disk.Keys
    ensures r == Err(EBADF) <==>
      fd in os.fds && (os.fds[fd] == Console(0) || (os.fds[fd].Disk? && !CanWrite(os.fds[fd].stream.access)))
  {
    var f :- GetFd(os, fd);
    match f
    case Console(k) =>
      if k == 0 then Err(EBADF)
      else if k == 1 then Ok((os.(stdout := os.stdout + buffer), |buffer|))
      else Ok((os.(stderr := os.stderr + buffer), |buffer|))
    case Disk(flavour, s) =>
      if !CanWrite(s.access) then Err(EBADF)
      else
        var bytes := if flavour == CrlfText then CrlfEncode(buffer) else BinaryEncode(buffer);
        var data := if s.name in os.disk then os.disk[s.name] else [];
        var disk := os.disk[s.name := WriteAt(data, s.pos, bytes)];
        Ok((os.(fds := os.fds[fd := Disk(flavour, s.(pos := s.pos + |bytes|))], disk := disk), |buffer|))
  }

  /** The bytes of a file from a position on: none past the end. */
  function From(data: seq<byte>, pos: nat): seq<byte>
  {
    if pos <= |data| then data[pos..] else []
  }

  /**
   * ll_os_read: the console hands out characters of standard input; a CRLF
   * file decodes, a binary file widens bytes to characters.  A negative
   * count is refused by the buffer allocation (an ArgumentOutOfRange for the
   * text flavour's StringBuilder, an Overflow for the arrays).
   */
  function OsRead(os: Os, fd: int, count: int): (r: Result<(Os, seq<char>), OsError>)
    ensures r.Ok? ==> count >= 0 && |r.value.1| <= count
    ensures r.Ok? ==> r.value.0.fds.Keys == os.fds.Keys && r.value.0.disk == os.disk && r.value.0.fdcount == os.fdcount
    ensures r == Err(EBADF) <==> fd in os.fds && os.fds[fd].Disk? && !CanRead(os.fds[fd].stream.access)
  {
    var f :- GetFd(os, fd);
    match f
    case Console(_) =>
      if count < 0 then Err(Overflow)
      else
        var n := if count < |os.stdin| then count else |os.stdin|;
        Ok((os.(stdin := os.stdin[n..]), os.stdin[..n]))
    case Disk(flavour, s) =>
      if !CanRead(s.access) then Err(EBADF)
      else if count < 0 then Err(if flavour == CrlfText then ArgumentOutOfRange else Overflow)
      else
        var avail := if s.name in os.disk then From(os.disk[s.name], s.pos) else [];
        var n := Taken(avail, count);
        var text := if flavour == CrlfText then CrlfDecode(avail, count, false) else BinaryDecode(avail[..n]);
        Ok((os.(fds := os.fds[fd := Disk(flavour, s.(pos := s.pos + n))]), text))
  }

  /**
   * The ll_os_read overload taking a 64-bit count casts it to 32 bits first,
   * keeping the low 32 bits as a two's-complement value.
   */
  function OsReadLong(os: Os, fd: int, count: int): (r: Result<(Os, seq<char>), OsError>)
    ensures Fits32(count) ==> r == OsRead(os, fd, count)
    ensures r.Ok? ==> |r.value.1| <= count % TWO_32 < 0x8000_0000
    ensures r == Err(EBADF) <==> fd in os.fds && os.fds[fd].Disk? && !CanRead(os.fds[fd].stream.access)
  {
    var c := Wrap32(count);
    WrapOfFits(count);
    WrapResidue(count);
    OsRead(os, fd, c)
  }

  /** A count already in the 32-bit range survives the cast. */
  lemma WrapOfFits(v: int)
    ensures Fits32(v) ==> Wrap32(v) == v
  {
    if Fits32(v) {
      if v >= 0 {
        ModUnique(v, TWO_32, 0, v);
      } else {
        ModUnique(v, TWO_32, -1, v + TWO_32);
      }
    }
  }

  /** A non-negative cast keeps exactly the residue modulo 2^32. */
  lemma WrapResidue(v: int)
    ensures Wrap32(v) >= 0 ==> Wrap32(v) == v % TWO_32 < 0x8000_0000
  {
  }

  /** A count of 2^32 + 5 is cast to 5, so at most five characters come back. */
  lemma LongReadTruncates(os: Os, fd: int)
    ensures OsReadLong(os, fd, TWO_32 + 5) == OsRead(os, fd, 5)
  {
    ModUnique(TWO_32 + 5, TWO_32, 1, 5);
  }

  datatype SeekOrigin = Begin | Current | End

  /** lseek's whence: 0, 1 and 2 name the origins; any other value means the beginning. */
  function Whence(whence: int): (o: SeekOrigin)
    ensures o == Current <==> whence == 1
    ensures o == End <==> whence == 2
  {
    if whence == 1 then Current else if whence == 2 then End else Begin
  }

  /**
   * ll_os_lseek: the new position is the origin plus the offset; before
   * the start (or, in append mode, before the end at opening) is refused.
   * The result is the new position.
   */
  function OsLseek(os: Os, fd: int, offset: int, whence: int): (r: Result<(Os, int), OsError>)
    ensures r.Ok? ==> r.value.1 >= 0 && r.value.0.fds.Keys == os.fds.Keys && r.value.0.disk == os.disk
    ensures r.Ok? ==> fd in r.value.0.fds && r.value.0.fds[fd].Disk? && r.value.0.fds[fd].stream.pos == r.value.1
    ensures r.Ok? ==> r.value.0.fdcount == os.fdcount
    ensures r == Err(NullReference) <==> fd in os.fds && os.fds[fd].Console?
  {
    var f :- GetFd(os, fd);
    match f
    case Console(_) => Err(NullReference)
    case Disk(flavour, s) =>
      var size := if s.name in os.disk then |os.disk[s.name]| else 0;
      var base := match Whence(whence) case Begin => 0 case Current => s.pos case End => size;
      var target := base + offset;
      if target < s.floor || target < 0 then Err(SeekBeforeBegin)
      else Ok((os.(fds := os.fds[fd := Disk(flavour, s.(pos := target))]), target))
  }

  // ---------------------------------------------------------------- table lemmas

  /** Every operation keeps the table's invariant. */
  lemma OperationsKeepInv(os: Os, name: string, flags: int, newline: string, fd: int, buffer: seq<char>, count: int, offset: int, whence: int)
    requires Inv(os)
    ensures OsOpen(os, name, flags, newline).Ok? ==> Inv(OsOpen(os, name, flags, newline).value.0)
    ensures OsClose(os, fd).Ok? ==> Inv(OsClose(os, fd).value)
    ensures OsWrite(os, fd, buffer).Ok? ==> Inv(OsWrite(os, fd, buffer).value.0)
    ensures OsRead(os, fd, count).Ok? ==> Inv(OsRead(os, fd, count).value.0)
    ensures OsLseek(os, fd, offset, whence).Ok? ==> Inv(OsLseek(os, fd, offset, whence).value.0)
  {
    OpenKeepsInv(os, name, flags, newline);
    CloseKeepsInv(os, fd);
    WriteKeepsInv(os, fd, buffer);
    ReadKeepsInv(os, fd, count);
    SeekKeepsInv(os, fd, offset, whence);
  }

  lemma OpenKeepsInv(os: Os, name: string, flags: int, newline: string)
    ensures Inv(os) && OsOpen(os, name, flags, newline).Ok? ==> Inv(OsOpen(os, name, flags, newline).value.0)
  {
  }

  lemma CloseKeepsInv(os: Os, fd: int)
    ensures Inv(os) && OsClose(os, fd).Ok? ==> Inv(OsClose(os, fd).value)
  {
  }

  lemma WriteKeepsInv(os: Os, fd: int, buffer: seq<char>)
    ensures Inv(os) && OsWrite(os, fd, buffer).Ok? ==> Inv(OsWrite(os, fd, buffer).value.0)
  {
  }

  lemma ReadKeepsInv(os: Os, fd: int, count: int)
    ensures Inv(os) && OsRead(os, fd, count).Ok? ==> Inv(OsRead(os, fd, count).value.0)
  {
  }

  lemma SeekKeepsInv(os: Os, fd: int, offset: int, whence: int)
    ensures Inv(os) && OsLseek(os, fd, offset, whence).Ok? ==> Inv(OsLseek(os, fd, offset, whence).value.0)
  {
  }

  /** A descriptor open returns was never in the table and is above every descriptor in it. */
  lemma OpenIsFresh(os: Os, name: string, flags: int, newline: string)
    requires Inv(os) && OsOpen(os, name, flags, newline).Ok?
    ensures var fd := OsOpen(os, name, flags, newline).value.1;
      fd !in os.fds && fd > 2 && forall k :: k in os.fds ==> k < fd
  {
  }

  /** The calls a program makes on the table, in order. */
  datatype Call =
    | OpenCall(name: string, flags: int)
    | CloseCall(fd: int)
    | WriteCall(fd: int, buffer: seq<char>)
    | ReadCall(fd: int, count: int)
    | SeekCall(fd: int, offset: int, whence: int)

  /** One call; a call that raises leaves the table as it was. */
  function Apply(os: Os, c: Call, newline: string): (r: (Os, Option<int>))
    ensures r.0.fdcount >= os.fdcount
    ensures r.1.Some? ==> r.1.value == os.fdcount + 1 && r.0.fdcount == r.1.value
    ensures r.1.None? ==> r.0.fdcount == os.fdcount
    ensures Inv(os) ==> Inv(r.0)
  {
    match c
    case OpenCall(name, flags) =>
      var r := OsOpen(os, name, flags, newline);
      OpenKeepsInv(os, name, flags, newline);
      if r.Ok? then (r.value.0, Some(r.value.1)) else (os, None)
    case CloseCall(fd) =>
      var r := OsClose(os, fd);
      CloseKeepsInv(os, fd);
      if r.Ok? then (r.value, None) else (os, None)
    case WriteCall(fd, buffer) =>
      var r := OsWrite(os, fd, buffer);
      WriteKeepsInv(os, fd, buffer);
      if r.Ok? then (r.value.0, None) else (os, None)
    case ReadCall(fd, count) =>
      var r := OsRead(os, fd, count);
      ReadKeepsInv(os, fd, count);
      if r.Ok? then (r.value.0, None) else (os, None)
    case SeekCall(fd, offset, whence) =>
      var r := OsLseek(os, fd, offset, whence);
      SeekKeepsInv(os, fd, offset, whence);
      if r.Ok? then (r.value.0, None) else (os, None)
  }

  /** A program's run: the final table and the descriptors its opens returned, in order. */
  function RunCalls(os: Os, calls: seq<Call>, newline: string): (r: (Os, seq<int>))
    ensures r.0.fdcount >= os.fdcount
    ensures Inv(os) ==> Inv(r.0)
    decreases |calls|
  {
    if |calls| == 0 then (os, [])
    else
      var (os1, fd) := Apply(os, calls[0], newline);
      var (os2, fds) := RunCalls(os1, calls[1..], newline);
      (os2, (if fd.Some? then [fd.value] else []) + fds)
  }

  /**
   * Descriptors are never reused: across any sequence of calls, the
   * descriptors returned by opens strictly increase, all lie above the
   * counter at the start, and the last one is the final counter.
   */
  lemma {:induction false} DescriptorsIncrease(os: Os, calls: seq<Call>, newline: string)
    ensures var fds := RunCalls(os, calls, newline).1;
      (forall i, j :: 0 <= i < j < |fds| ==> fds[i] < fds[j]) &&
      (forall i :: 0 <= i < |fds| ==> os.fdcount < fds[i] <= RunCalls(os, calls, newline).0.fdcount)
    decreases |calls|
  {
    if |calls| > 0 {
      var a := Apply(os, calls[0], newline);
      var b := RunCalls(a.0, calls[1..], newline);
      DescriptorsIncrease(a.0, calls[1..], newline);
      assert var fds' := RunCalls(a.0, calls[1..], newline).1;
        (forall i :: 0 <= i < |fds'| ==> a.0.fdcount < fds'[i] <= RunCalls(a.0, calls[1..], newline).0.fdcount);
      assert a.0.fdcount >= os.fdcount && b.0.fdcount >= a.0.fdcount;
      var fds := RunCalls(os, calls, newline).1;
      assert fds == (if a.1.Some? then [a.1.value] else []) + b.1;
      assert RunCalls(os, calls, newline).0 == b.0;
      if a.1.Some? {
        assert forall i :: 1 <= i < |fds| ==> fds[i] == b.1[i - 1];
      }
    }
  }

  // ---------------------------------------------------------------- seek and read-back lemmas

  /** Two seeks relative to the current position add up, when the first lands inside the file's range. */
  lemma SeekComposes(os: Os, fd: int, a: int, b: int)
    requires OsLseek(os, fd, a, 1).Ok?
    ensures var r1 := OsLseek(os, fd, a, 1).value;
      OsLseek(r1.0, fd, b, 1) == OsLseek(os, fd, a + b, 1)
  {
    var r1 := OsLseek(os, fd, a, 1).value;
    var f := os.fds[fd];
    var s := f.stream;
    var t := s.pos + a + b;
    if OsLseek(os, fd, a + b, 1).Ok? {
      var m1 := os.fds[fd := Disk(f.flavour, s.(pos := s.pos + a))];
      assert m1[fd := Disk(f.flavour, s.(pos := t))] == os.fds[fd := Disk(f.flavour, s.(pos := t))];
    }
  }

  /** Seeking from the beginning to a position reports that position; from the end by 0, the size. */
  lemma SeekTargets(os: Os, fd: int, p: int)
    requires fd in os.fds && os.fds[fd].Disk? && os.fds[fd].stream.floor == 0
    requires os.fds[fd].stream.name in os.disk && p >= 0
    ensures OsLseek(os, fd, p, 0).Ok? && OsLseek(os, fd, p, 0).value.1 == p
    ensures OsLseek(os, fd, 0, 2).Ok? && OsLseek(os, fd, 0, 2).value.1 == |os.disk[os.fds[fd].stream.name]|
    ensures OsLseek(os, fd, p, 7) == OsLseek(os, fd, p, 0)
  {
  }

  /** A file opened truncated for reading and writing: empty, at position 0. */
  lemma OpenTruncated(os: Os, name: string, binary: bool, newline: string)
    requires Inv(os)
    ensures var r := OsOpen(os, name, MakeFlags(ReadWrite, Create, binary), newline);
      r.Ok? && r.value.0.disk[name] == [] &&
      r.value.0.fds[r.value.1] == Disk(if binary || newline != "\r\n" then Binary else CrlfText, Stream(name, 0, ReadWrite, 0))
  {
    FlagsRoundTrip(ReadWrite, Create, binary, newline);
  }

  /**
   * Write, seek back to the start and read: a binary descriptor returns the
   * text written (for characters below 256), a CRLF descriptor the same
   * for text with no CR, reading as many bytes as were written.
   */
  lemma WriteSeekRead(os: Os, fd: int, text: seq<char>)
    requires Inv(os) && fd in os.fds && os.fds[fd].Disk?
    requires os.fds[fd].stream.access == ReadWrite && os.fds[fd].stream.pos == 0 && os.fds[fd].stream.floor == 0
    requires os.disk[os.fds[fd].stream.name] == []
    requires Plain(text)
    ensures var f := os.fds[fd];
      var w := OsWrite(os, fd, text);
      var n := if f.flavour == CrlfText then |CrlfEncode(text)| else |text|;
      w.Ok? && OsLseek(w.value.0, fd, 0, 0).Ok? &&
      OsRead(OsLseek(w.value.0, fd, 0, 0).value.0, fd, n).Ok? &&
      OsRead(OsLseek(w.value.0, fd, 0, 0).value.0, fd, n).value.1 == text
  {
    var f := os.fds[fd];
    var name := f.stream.name;
    var bytes := if f.flavour == CrlfText then CrlfEncode(text) else BinaryEncode(text);
    var w := OsWrite(os, fd, text);
    assert WriteAt([], 0, bytes) == bytes;
    assert w.value.0.disk[name] == bytes;
    var os2 := OsLseek(w.value.0, fd, 0, 0).value.0;
    assert os2.fds[fd].stream.pos == 0 && os2.fds[fd].stream.name == name;
    assert From(bytes, 0) == bytes;
    if f.flavour == CrlfText {
      CrlfRoundTrip(text, |bytes|);
    } else {
      assert bytes[..Taken(bytes, |text|)] == bytes;
      BinaryRoundTrip(text);
    }
  }
}
