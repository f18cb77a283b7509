/// Log records and the queue they wait in (createiolog.c), and the thread that writes them out
/// (iowritethread.c).
module IoLog {
  import opened Bytes
  import opened PathNames
  import opened FileTree

  datatype LogType = NewFile | DeleteFile | WriteFile | Error

  /// LOG_FILE.  The header is packed: the path field has 260 characters, and the time stamp, the length
  /// and the offset follow it without a gap; the rest of the header is zero.
  datatype LogFile = LogFile(ulType: LogType, bIsDir: bool, ullSeqNo: nat, ullGlobalSeqNo: nat, ulLogSize: nat,
                             wszFilePath: seq<char>, liSystemTime: nat, length: nat, byteOffset: nat, data: seq<Byte>)

  const PATH_FIELD := 260
  const LOG_FILE_SIZE := 1028
  const NUL: char := '\0'

  /// strncpy of at most 260 characters to the zeroed field: a path that fills it has no NUL behind it.
  function PathField(abspath: string): (field: seq<char>)
    ensures |field| == PATH_FIELD
  {
    seq(PATH_FIELD, i requires 0 <= i => if i < |abspath| then abspath[i] else NUL)
  }

  /// The n low bytes of a number.
  function LittleEndian(v: nat, n: nat): (s: seq<Byte>)
    ensures |s| == n
  {
    if n == 0 then [] else [v % 0x100] + LittleEndian(v / 0x100, n - 1)
  }

  function Text(s: seq<Byte>): (t: seq<char>)
    ensures |t| == |s|
  {
    seq(|s|, i requires 0 <= i < |s| => s[i] as char)
  }

  /// A C string ends at the first NUL.
  function UpToNul(s: seq<char>): (r: string)
    ensures NUL !in r && r <= s
  {
    if s == [] || s[0] == NUL then "" else [s[0]] + UpToNul(s[1..])
  }

  /// What follows the path field in the header.
  function Behind(logfile: LogFile): seq<char>
  {
    Text(LittleEndian(logfile.liSystemTime, 8) + LittleEndian(logfile.length, 4) + LittleEndian(logfile.byteOffset, 8)) + [NUL]
  }

  /// The path that the restorer reads: the field as a C string.
  function PathRead(logfile: LogFile): (r: string)
    ensures NUL !in r
  {
    UpToNul(logfile.wszFilePath + Behind(logfile))
  }

  lemma {:induction false} UpToNulAppend(s: string, t: seq<char>)
    requires NUL !in s
    ensures UpToNul(s + t) == s + UpToNul(t)
  {
    if s != "" {
      assert (s + t)[1..] == s[1..] + t;
      UpToNulAppend(s[1..], t);
    } else {
      assert s + t == t;
    }
  }

  /// A path survives in a record if and only if the field has room for a NUL behind it, or the rest of the
  /// path happens to be what the time stamp spells.
  lemma PathSurvives(abspath: string, logfile: LogFile)
    requires NUL !in abspath && logfile.wszFilePath == PathField(abspath)
    ensures PathRead(logfile) == abspath <==>
      |abspath| < PATH_FIELD || abspath[PATH_FIELD..] == UpToNul(Behind(logfile))
    ensures |abspath| >= PATH_FIELD ==> PathRead(logfile) == abspath[..PATH_FIELD] + UpToNul(Behind(logfile))
  {
    var behind := Behind(logfile);
    if |abspath| < PATH_FIELD {
      var rest := seq(PATH_FIELD - |abspath|, _ => NUL) + behind;
      assert logfile.wszFilePath + behind == abspath + rest && rest[0] == NUL;
      UpToNulAppend(abspath, rest);
    } else {
      var shown := abspath[..PATH_FIELD];
      assert logfile.wszFilePath == shown && abspath == shown + abspath[PATH_FIELD..];
      UpToNulAppend(shown, behind);
      assert PathRead(logfile)[PATH_FIELD..] == UpToNul(behind);
    }
  }

  /// At 260 characters a path survives only if the low byte of the time stamp is zero; else that byte, as
  /// a character, is read as its end.
  lemma PathFillsField(abspath: string, logfile: LogFile)
    requires NUL !in abspath && |abspath| == PATH_FIELD && logfile.wszFilePath == PathField(abspath)
    ensures PathRead(logfile) == abspath <==> logfile.liSystemTime % 0x100 == 0
    ensures logfile.liSystemTime % 0x100 != 0 ==>
      |PathRead(logfile)| > PATH_FIELD && PathRead(logfile)[PATH_FIELD] == (logfile.liSystemTime % 0x100) as char
  {
    PathSurvives(abspath, logfile);
    var behind := Behind(logfile);
    assert behind[0] == (logfile.liSystemTime % 0x100) as char;
    assert abspath[..PATH_FIELD] == abspath;
  }

  /// The numbers and the time that a hook draws before the operation.
  datatype Stamp = Stamp(seqNo: nat, globalSeqNo: nat, time: nat)

  /// createiologformkdir and its five siblings: the zeroed record, filled in.
  function Filled(ulType: LogType, bIsDir: bool, stamp: Stamp, abspath: string, pos: nat, data: seq<Byte>): LogFile
  {
    LogFile(ulType, bIsDir, stamp.seqNo, stamp.globalSeqNo,
            if ulType == WriteFile then LOG_FILE_SIZE + |data| - 4 else LOG_FILE_SIZE,
            PathField(abspath), stamp.time, |data|, pos, data)
  }

  /// The record a hook makes of an operation on a monitored path.
  function RecordOf(op: Op, done: bool, stamp: Stamp): LogFile
  {
    var path := Render(op.path);
    if !done then Filled(Error, false, stamp, path, 0, [])
    else match op
      case Mkdir(_) => Filled(NewFile, true, stamp, path, 0, [])
      case Create(_) => Filled(NewFile, false, stamp, path, 0, [])
      case Write(_, pos, data) => Filled(WriteFile, false, stamp, path, pos, data)
      case Unlink(_) => Filled(DeleteFile, false, stamp, path, 0, [])
      case Rmdir(_) => Filled(DeleteFile, true, stamp, path, 0, [])
  }

  /// IOWRITE_CONTEXT: a record with the name of its file.
  datatype Context<P> = Context(name: P, logfile: LogFile)

  /// The records written, by name, after es in order.
  function Written<P(!new)>(disk: map<P, LogFile>, es: seq<Context<P>>): map<P, LogFile>
    decreases |es|
  {
    if es == [] then disk else Written(disk[es[0].name := es[0].logfile], es[1..])
  }

  type SetId = nat

  /// A log file is named by the directory of its set and its number.
  type FileName = (SetId, nat)

  /// The records whose files can be written.
  function Accepted(es: seq<Context<FileName>>, refused: set<FileName>): seq<Context<FileName>>
    decreases |es|
  {
    if es == [] then [] else (if es[0].name in refused then [] else [es[0]]) + Accepted(es[1..], refused)
  }

  /// The files of these records are different and not there yet.
  ghost predicate FreshNames(disk: map<FileName, LogFile>, es: seq<Context<FileName>>)
  {
    (forall i, j | 0 <= i < j < |es| :: es[i].name != es[j].name) && forall i | 0 <= i < |es| :: es[i].name !in disk
  }

  /// What the drain leaves on the disk: the files that were there, unchanged, and exactly the queued records
  /// whose files can be written.
  lemma {:induction false} DrainExact(disk: map<FileName, LogFile>, es: seq<Context<FileName>>, refused: set<FileName>)
    requires FreshNames(disk, es)
    ensures var after := Written(disk, Accepted(es, refused));
      && (forall n | n in disk :: n in after && after[n] == disk[n])
      && (forall i | 0 <= i < |es| :: es[i].name in after <==> es[i].name !in refused)
      && (forall i | 0 <= i < |es| && es[i].name in after :: after[es[i].name] == es[i].logfile)
      && (forall n | n in after :: n in disk || exists i | 0 <= i < |es| :: es[i].name == n)
    ensures refused == {} ==> Written(disk, Accepted(es, refused)) == Written(disk, es)
    decreases |es|
  {
    if es != [] {
      var (name, rest) := (es[0].name, es[1..]);
      var first := if name in refused then disk else disk[name := es[0].logfile];
      AcceptedFirst(disk, es, refused);
      DrainExact(first, rest, refused);
      var after := Written(disk, Accepted(es, refused));
      forall n | n in after
        ensures n in disk || exists i | 0 <= i < |es| :: es[i].name == n
      {
        if n in disk {
        } else if n == name {
          assert es[0].name == n;
        } else {
          var i :| 0 <= i < |rest| && rest[i].name == n;
          assert es[i + 1].name == n;
        }
      }
      forall i | 0 <= i < |es|
        ensures es[i].name in after <==> es[i].name !in refused
        ensures es[i].name in after ==> after[es[i].name] == es[i].logfile
      {
        if i > 0 {
          assert es[i] == rest[i - 1];
        }
      }
    }
  }

  lemma QueueMembers(es: seq<Context<FileName>>)
    ensures forall e | e in es :: exists i | 0 <= i < |es| :: es[i] == e
    ensures forall i | 0 <= i < |es| :: es[i] in es
  {}

  lemma AcceptedFirst(disk: map<FileName, LogFile>, es: seq<Context<FileName>>, refused: set<FileName>)
    requires es != []
    ensures Written(disk, Accepted(es, refused)) ==
      Written(if es[0].name in refused then disk else disk[es[0].name := es[0].logfile], Accepted(es[1..], refused))
  {
    var rest := Accepted(es[1..], refused);
    assert [] + rest == rest && ([es[0]] + rest)[0] == es[0] && ([es[0]] + rest)[1..] == rest;
  }

  class LogQueue {
    var queue: seq<Context<FileName>>
    var disk: map<FileName, LogFile>

    constructor ()
      ensures queue == [] && disk == map[]
    {
      queue, disk := [], map[];
    }

    /// list_add_tail
    method AddTail(name: FileName, logfile: LogFile)
      modifies this`queue
      ensures queue == old(queue) + [Context(name, logfile)]
    {
      queue := queue + [Context(name, logfile)];
    }

    /// createiologformkdir, createiologforcreatefile, createiologforrmdir, createiologforrmfile,
    /// createiologforerror and createiologforwrite differ in the type, the flag and the data.  Without
    /// memory nothing is queued, and the number is lost.
    method CreateIoLog(owner: SetId, ulType: LogType, bIsDir: bool, stamp: Stamp, abspath: string, pos: nat,
                       writebuff: seq<Byte>, memory: bool) returns (iret: int)
      requires ulType != WriteFile ==> pos == 0 && writebuff == []
      modifies this`queue
      ensures iret == if memory then 0 else -1
      ensures queue == old(queue) +
        if memory then [Context((owner, stamp.globalSeqNo), Filled(ulType, bIsDir, stamp, abspath, pos, writebuff))] else []
    {
      if !memory {
        return -1;
      }
      var zeros := seq(PATH_FIELD, _ => NUL);
      var logfile := LogFile(ulType, bIsDir, 0, 0, LOG_FILE_SIZE, zeros, 0, 0, 0, []);
      logfile := logfile.(ullSeqNo := stamp.seqNo, ullGlobalSeqNo := stamp.globalSeqNo, liSystemTime := stamp.time);
      if ulType == WriteFile {
        logfile := logfile.(length := |writebuff|, ulLogSize := LOG_FILE_SIZE + |writebuff| - 4);
        logfile := logfile.(byteOffset := pos, data := writebuff);
      }
      var len := if |abspath| > PATH_FIELD then PATH_FIELD else |abspath|;
      logfile := logfile.(wszFilePath := abspath[..len] + zeros[len..]);
      assert logfile.wszFilePath == PathField(abspath);
      AddTail((owner, stamp.globalSeqNo), logfile);
      return 0;
    }

    /// What a hook does after it ran the operation: the record of the operation, or the error record.
    method LogOperation(owner: SetId, op: Op, done: bool, stamp: Stamp, memory: bool) returns (iret: int)
      modifies this`queue
      ensures iret == if memory then 0 else -1
      ensures queue == old(queue) + if memory then [Context((owner, stamp.globalSeqNo), RecordOf(op, done, stamp))] else []
    {
      var abspath := Render(op.path);
      if done {
        match op
        case Mkdir(p) => iret := CreateIoLog(owner, NewFile, true, stamp, abspath, 0, [], memory);
        case Create(p) => iret := CreateIoLog(owner, NewFile, false, stamp, abspath, 0, [], memory);
        case Write(p, pos, data) => iret := CreateIoLog(owner, WriteFile, false, stamp, abspath, pos, data, memory);
        case Unlink(p) => iret := CreateIoLog(owner, DeleteFile, false, stamp, abspath, 0, [], memory);
        case Rmdir(p) => iret := CreateIoLog(owner, DeleteFile, true, stamp, abspath, 0, [], memory);
      } else {
        iret := CreateIoLog(owner, Error, false, stamp, abspath, 0, [], memory);
      }
    }

    /// The inner loop of thread_iowrite, undisturbed: the queue goes to disk in order.  A record whose file
    /// cannot be written is freed all the same.
    method Drain(refused: set<FileName>)
      modifies this
      ensures queue == [] && disk == Written(old(disk), Accepted(old(queue), refused))
      ensures FreshNames(old(disk), old(queue)) ==>
        && (forall n | n in old(disk) :: n in disk && disk[n] == old(disk)[n])
        && (forall e | e in old(queue) :: e.name in disk <==> e.name !in refused)
        && (forall e | e in old(queue) && e.name in disk :: disk[e.name] == e.logfile)
        && (forall n | n in disk :: n in old(disk) || exists e | e in old(queue) :: e.name == n)
        && (refused == {} ==> disk == Written(old(disk), old(queue)))
    {
      if FreshNames(disk, queue) {
        DrainExact(disk, queue, refused);
        QueueMembers(queue);
      }
      while queue != []
        invariant Written(disk, Accepted(queue, refused)) == Written(old(disk), Accepted(old(queue), refused))
        decreases |queue|
      {
        var piowc := queue[0];
        ghost var rest := Accepted(queue[1..], refused);
        assert ([piowc] + rest)[1..] == rest && [] + rest == rest;
        queue := queue[1..];
        if piowc.name !in refused {
          disk := disk[piowc.name := piowc.logfile];
        }
      }
    }
  }

  /// With different names, new on the disk, nothing is overwritten and everything arrives.
  lemma {:induction false} WrittenAll<P(!new)>(disk: map<P, LogFile>, es: seq<Context<P>>)
    requires forall i, j | 0 <= i < j < |es| :: es[i].name != es[j].name
    requires forall i | 0 <= i < |es| :: es[i].name !in disk
    ensures forall n | n in disk :: n in Written(disk, es) && Written(disk, es)[n] == disk[n]
    ensures forall i | 0 <= i < |es| :: es[i].name in Written(disk, es) && Written(disk, es)[es[i].name] == es[i].logfile
    ensures forall n | n in Written(disk, es) :: n in disk || exists i | 0 <= i < |es| :: es[i].name == n
    decreases |es|
  {
    if es != [] {
      var first := disk[es[0].name := es[0].logfile];
      WrittenAll(first, es[1..]);
      forall n | n in Written(disk, es)
        ensures n in disk || exists i | 0 <= i < |es| :: es[i].name == n
      {
        if n !in first {
          var i :| 0 <= i < |es[1..]| && es[1..][i].name == n;
          assert es[i + 1].name == n;
        }
      }
      forall i | 0 <= i < |es|
        ensures es[i].name in Written(disk, es) && Written(disk, es)[es[i].name] == es[i].logfile
      {
        if i > 0 {
          assert es[i] == es[1..][i - 1];
        } else {
          assert es[0].name in first;
        }
      }
    }
  }
}
