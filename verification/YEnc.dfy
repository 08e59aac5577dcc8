/** The codec object: its fields, and the loops that write and read files on a disk. */
module YEnc {
  import opened Wrappers
  import opened YEncCodec
  import opened YEncText
  import opened YEncFile

  class Disk {
    var files: map<Bytes, Bytes>

    constructor ()
      ensures files == map[]
    {
      files := map[];
    }
  }

  /** Where the part after the last slash before `i` starts. */
  function NameStart(path: Bytes, i: nat): (k: nat)
    requires i <= |path|
    ensures k <= i
  {
    if i == 0 || path[i - 1] == 47 then i else NameStart(path, i - 1)
  }

  function Basename(path: Bytes): Bytes {
    path[NameStart(path, |path|)..]
  }

  /** A base name is what comes after the last slash of the path, or the whole path. */
  lemma {:induction false} BasenameIsLastPart(path: Bytes)
    ensures var k := |path| - |Basename(path)|;
            && 0 <= k && Basename(path) == path[k..] && 47 !in Basename(path)
            && (k > 0 ==> path[k - 1] == 47)
  {
    NoSlashFrom(path, |path|);
  }

  lemma {:induction false} NoSlashFrom(path: Bytes, i: nat)
    requires i <= |path|
    ensures var k := NameStart(path, i);
            (forall j | k <= j < i :: path[j] != 47) && (k > 0 ==> path[k - 1] == 47)
    decreases i
  {
    if i > 0 && path[i - 1] != 47 {
      NoSlashFrom(path, i - 1);
    }
  }

  class Coder {
    const filepath: Bytes
    const outputpath: Bytes
    const disk: Disk
    /** `Zlib.crc32`, kept uninterpreted: every law holds for any checksum function. */
    const crc32: Bytes -> nat

    var filename: Option<Bytes>
    var filesize: Option<Bytes>
    var line: Option<Bytes>
    var crc: Option<Bytes>
    /** The name under which the last output file was opened. */
    var newFile: Option<Bytes>

    constructor (filepath: Bytes, outputpath: Bytes, disk: Disk, crc32: Bytes -> nat)
      ensures this.filepath == filepath && this.outputpath == outputpath
      ensures this.disk == disk && this.crc32 == crc32
      ensures Valid() && State() == FRESH
    {
      this.filepath, this.outputpath := filepath, outputpath;
      this.disk, this.crc32 := disk, crc32;
      filename, filesize, line, crc, newFile := None, None, None, None, None;
    }

    ghost predicate Valid()
      reads this, disk
    {
      newFile.Some? ==> outputpath + newFile.value in disk.files
    }

    ghost function State(): YState
      requires Valid()
      reads this, disk
    {
      YState(filename, filesize, line, crc,
             if newFile.None? then None
             else Some(OutFile(newFile.value, disk.files[outputpath + newFile.value])))
    }

    /** Adds to an output file that is open; every other file is left alone. */
    method Put(path: Bytes, text: Bytes)
      requires path in disk.files
      modifies disk
      ensures disk.files == old(disk.files)[path := old(disk.files[path]) + text]
    {
      disk.files := disk.files[path := disk.files[path] + text];
    }

    /** Writes one buffer, byte by byte. */
    method PutBuffer(path: Bytes, buffer: Bytes)
      requires path in disk.files
      modifies disk
      ensures disk.files == old(disk.files)[path := old(disk.files[path]) + EncodeLine(buffer)]
    {
      ghost var start := disk.files[path];
      var special := {0, 10, 13, 61};
      var j := 0;
      assert start + [] == start;
      while j < |buffer|
        invariant 0 <= j <= |buffer|
        invariant disk.files == old(disk.files)[path := start + EncodeLine(buffer[..j])]
      {
        var charToWrite: int := (buffer[j] as int + 42) % 256;
        AppendByte(buffer, j);
        ghost var line := start + EncodeLine(buffer[..j]);
        if charToWrite in special {
          Put(path, [ESC]);
          charToWrite := (charToWrite + 64) % 256;
          assert line + [ESC] + [charToWrite] == line + [ESC, charToWrite];
        }
        Put(path, [charToWrite]);
        Regroup(start, EncodeLine(buffer[..j]), EncodeByte(buffer[j]));
        j := j + 1;
      }
      assert buffer[..j] == buffer;
    }

    /** Writes the framed file; every other file is left alone. Opening the output truncates
        it, so it may not be the input. */
    method EncodeToFile(outputfilename: Bytes)
      requires filepath in disk.files && outputpath + outputfilename != filepath
      modifies disk
      ensures disk.files == old(disk.files)[outputpath + outputfilename :=
                EncodedFile(Basename(filepath), old(disk.files[filepath]), crc32(old(disk.files[filepath])))]
    {
      var path := outputpath + outputfilename;
      disk.files := disk.files[path := []];
      ghost var f := disk.files[filepath];
      ghost var header := HeaderText(Basename(filepath), |f|) + [LF];
      Put(path, HeaderText(Basename(filepath), |disk.files[filepath]|) + [LF]);
      assert [] + header == header;
      var pos := 0;
      assert header + EncodeBody(f) == header + [] + EncodeBody(f[0..]);
      while pos < |disk.files[filepath]|
        invariant filepath in disk.files && disk.files[filepath] == f && 0 <= pos <= |f|
        invariant path in disk.files
        invariant disk.files == old(disk.files)[path := disk.files[path]]
        invariant disk.files[path] + EncodeBody(f[pos..]) == header + EncodeBody(f)
      {
        var next := if pos + 128 <= |disk.files[filepath]| then pos + 128 else |disk.files[filepath]|;
        BodyFrom(f, pos, next, disk.files[path]);
        PutBuffer(path, disk.files[filepath][pos..next]);
        Put(path, [LF]);
        pos := next;
      }
      assert disk.files[path] + [] == disk.files[path];
      ghost var trailer := TrailerText(crc32(f)) + [LF];
      Put(path, TrailerText(crc32(disk.files[filepath])) + [LF]);
      Regroup(header, EncodeBody(f), trailer);
    }

    /** The second encoder, with loops of its own: the body alone, and the very body that
        `EncodeToFile` frames. */
    method Encode() returns (result: Bytes)
      requires filepath in disk.files
      ensures result == EncodeBody(disk.files[filepath])
    {
      var b := disk.files[filepath];
      var special := {0, 10, 13, 61};
      result := [];
      var pos := 0;
      while pos < |b|
        invariant 0 <= pos <= |b|
        invariant result + EncodeBody(b[pos..]) == EncodeBody(b)
      {
        var next := if pos + 128 <= |b| then pos + 128 else |b|;
        var buffer := b[pos..next];
        ghost var before := result;
        var j := 0;
        assert before + [] == before;
        while j < |buffer|
          invariant 0 <= j <= |buffer|
          invariant result == before + EncodeLine(buffer[..j])
        {
          var charToWrite: int := (buffer[j] as int + 42) % 256;
          AppendByte(buffer, j);
          Regroup(before, EncodeLine(buffer[..j]), EncodeByte(buffer[j]));
          if charToWrite in special {
            result := result + [ESC];
            charToWrite := (charToWrite + 64) % 256;
          }
          result := result + [charToWrite];
          j := j + 1;
        }
        assert buffer[..j] == buffer;
        result := result + [LF];
        BodyFrom(b, pos, next, before);
        pos := next;
      }
      assert result + [] == result;
    }

    /** Decodes one data line into the open output file. */
    method DecodeInto(l: Bytes)
      requires Valid() && newFile.Some?
      modifies disk
      ensures Valid() && State() == Write(old(State()), DecodeLine(l, false))
      ensures forall p | p in old(disk.files) && p != outputpath + newFile.value ::
                p in disk.files && disk.files[p] == old(disk.files[p])
    {
      var path := outputpath + newFile.value;
      ghost var start := disk.files[path];
      var esc := false;
      var i := 0;
      assert l[0..] == l;
      while i < |l|
        invariant 0 <= i <= |l|
        invariant path in disk.files
        invariant disk.files[path] + DecodeLine(l[i..], esc) == start + DecodeLine(l, false)
        invariant forall p | p in old(disk.files) && p != path ::
                    p in disk.files && disk.files[p] == old(disk.files[p])
      {
        var c: int := l[i];
        assert l[i..][1..] == l[i+1..];
        ghost var was := disk.files[path];
        if c == 13 || c == 10 {
        } else if c == 61 && !esc {
          esc := true;
        } else {
          if esc {
            esc := false;
            c := c - 64;
          }
          var decoded;
          if 0 <= c <= 41 {
            decoded := c + 214;
          } else {
            decoded := c - 42;
          }
          disk.files := disk.files[path := disk.files[path] + [decoded % 256]];
          assert disk.files[path] + DecodeLine(l[i+1..], false)
              == was + ([decoded % 256] + DecodeLine(l[i+1..], false));
        }
        i := i + 1;
      }
      assert DecodeLine(l[i..], esc) == [];
      assert disk.files[path] + [] == disk.files[path];
    }

    /** Fields of the header line; raises when no name is known. */
    method BreakdownHeader(l: Bytes) returns (raised: bool)
      requires Valid()
      modifies this`filename, this`filesize, this`line, this`newFile, disk
      ensures Valid()
      ensures var h := Header(old(State()), l);
              if raised then h.filename.None? && State() == h
              else h.filename.Some? && State() == OpenOut(h)
      ensures raised ==> disk.files == old(disk.files)
      ensures !raised ==> newFile.Some? && forall p | p in old(disk.files) && p != outputpath + newFile.value ::
                p in disk.files && disk.files[p] == old(disk.files[p])
    {
      if filename.None? { filename := MatchRest(l, NAME_KEY); }
      if filesize.None? { filesize := MatchWord(l, SIZE_KEY); }
      if line.None? { line := MatchWord(l, LINE_KEY); }
      if filename.None? { return true; }
      disk.files := disk.files[outputpath + filename.value := []];
      newFile := filename;
      return false;
    }

    /** Decodes the input file as `DecodeFile` says. The output may not be the input itself. */
    method Decode() returns (raised: bool)
      requires Valid() && filepath in disk.files
      requires var o := DecodeFile(disk.files[filepath], State());
               o.st.out.Some? ==> outputpath + o.st.out.value.name != filepath
      modifies this, disk
      ensures Valid()
      ensures (if raised then Raised(State()) else Done(State()))
           == DecodeFile(old(disk.files[filepath]), old(State()))
      ensures filepath in disk.files && disk.files[filepath] == old(disk.files[filepath])
    {
      ghost var st0 := State();
      var content := disk.files[filepath];
      if Contains(content, YBEGIN) {
        ghost var result := Scan(Lines(content), false, st0);
        var beginRead := false;
        var lines := Lines(content);
        var i := 0;
        while i < |lines|
          invariant 0 <= i <= |lines|
          invariant Valid()
          invariant beginRead ==> newFile.Some? && outputpath + newFile.value != filepath
          invariant beginRead ==> result.Done? && result.st.out.Some? && result.st.out.value.name == newFile.value
          invariant Scan(lines[i..], beginRead, State()) == result
          invariant filepath in disk.files && disk.files[filepath] == content
        {
          var l := lines[i];
          assert lines[i..][0] == l && lines[i..][1..] == lines[i+1..];
          if beginRead {
            if YEND <= l {
              if crc.None? { crc := MatchRest(l, CRC_KEY); }
              assert Done(State()) == result;
              break;
            }
            DecodeInto(l);
          } else if YBEGIN <= l {
            ghost var st := State();
            raised := BreakdownHeader(l);
            if raised {
              return true;
            }
            ScanKeepsName(lines[i+1..], OpenOut(Header(st, l)));
            beginRead := true;
          }
          i := i + 1;
        }
        assert Done(State()) == result;
      }
      raised := newFile.None?;
    }

    /** The checksum test; None stands for the exceptions on a missing name, file or checksum. */
    method PassCrc32() returns (r: Option<bool>)
      requires Valid()
      ensures r == if filename.None? || outputpath + filename.value !in disk.files || crc.None? then None
                   else Some(ChecksumMatches(crc.value, crc32(disk.files[outputpath + filename.value])))
    {
      if filename.None? || outputpath + filename.value !in disk.files { return None; }
      var found := Numeral(crc32(disk.files[outputpath + filename.value]), 16);
      if crc.None? { return None; }
      r := Some(found == Strip(Downcase(crc.value)));
    }
  }

  lemma {:induction false} AppendByte(buffer: Bytes, j: nat)
    requires j < |buffer|
    ensures EncodeLine(buffer[..j+1]) == EncodeLine(buffer[..j]) + EncodeByte(buffer[j])
  {
    assert buffer[..j+1] == buffer[..j] + [buffer[j]];
    EncodeLineConcat(buffer[..j], [buffer[j]]);
    assert EncodeLine([buffer[j]]) == EncodeByte(buffer[j]) + EncodeLine([]);
  }

  lemma {:induction false} BodyFrom(f: Bytes, pos: nat, next: nat, before: Bytes)
    requires pos < |f| && next == if pos + 128 <= |f| then pos + 128 else |f|
    ensures before + EncodeBody(f[pos..]) == (before + EncodeLine(f[pos..next]) + [LF]) + EncodeBody(f[next..])
  {
    var s := f[pos..];
    var n := if |s| < CHUNK then |s| else CHUNK;
    assert s[..n] == f[pos..next] && s[n..] == f[next..];
    Regroup(before, EncodeLine(f[pos..next]), [LF]);
    Regroup(before, EncodeLine(f[pos..next]) + [LF], EncodeBody(f[next..]));
  }

  /** Encode, decode and check on one disk: the copy equals the original, and the checksum
      test passes. */
  method Transfer(disk: Disk, source: Bytes, mailbox: Bytes, mail: Bytes, target: Bytes, crc32: Bytes -> nat)
    returns (raised: bool, passed: Option<bool>)
    requires source in disk.files && LF !in Basename(source)
    requires mailbox + mail != source && target + Basename(source) != mailbox + mail
    modifies disk
    ensures !raised && passed == Some(true)
    ensures target + Basename(source) in disk.files
    ensures disk.files[target + Basename(source)] == old(disk.files[source])
  {
    var encoder := new Coder(source, mailbox, disk, crc32);
    ghost var data := disk.files[source];
    encoder.EncodeToFile(mail);
    var decoder := new Coder(mailbox + mail, target, disk, crc32);
    RoundTrip(Basename(source), data, crc32(data));
    raised := decoder.Decode();
    assert decoder.State().out == Some(OutFile(Basename(source), data));
    passed := decoder.PassCrc32();
    ChecksumPassesIff(crc32(data), crc32(data));
  }
}
