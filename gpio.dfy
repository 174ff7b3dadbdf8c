/**
  The pin handle of GPIO.java: a pin number, a direction string and the
  `isInited` flag, driving the sysfs files through a FileSystem.

  Each operation is specified by a pure function of the old flag and the old
  filesystem state (ReleaseSpec, InitSpec, ReadSpec, WriteSpec); the methods
  of class Gpio are proved to follow them, and the lemmas below state what
  the code promises about every run.
 */
module LibGpio {
  import opened Decimal
  import opened SysFs

  /** The byte `write(value)` sends: the first character of `value + ""`. */
  function EncodeValue(value: int): (c: char)
    ensures c == '-' <==> value < 0
    ensures value >= 0 ==> IsDigit(c)
  {
    Render(value)[0]
  }

  /**
    What `read()` makes of the value file: its first byte, or the buffer's
    initial 0 byte when the file is empty, decoded as 1 for '1' and 0 otherwise.
   */
  function DecodeValue(data: string): (v: int)
    ensures v == 0 || v == 1
    ensures v == 1 <==> |data| > 0 && data[0] == '1'
  {
    var first := if |data| > 0 then data[0] else 0 as char;
    if first == '1' then 1 else 0
  }

  /** `release()`: the new value of `isInited` and the new filesystem state. */
  function ReleaseSpec(no: int, inited: bool, s: FsState): (r: (bool, FsState))
    ensures !inited ==> r == (false, s)
    ensures inited ==> r.0 == (UnexportPath in s.faults)
    ensures r.1.faults == s.faults && r.1.files == s.files
  {
    if !inited then (inited, s)
    else
      UnexportWrite(s, no);
      var st := WriteStatus(s, UnexportPath, Render(no));
      (st.Failed?, AfterWrite(s, UnexportPath, Render(no)))
  }

  /** `init()`: the call's outcome, the new value of `isInited` and the new filesystem state. */
  function InitSpec(no: int, mode: string, inited: bool, s: FsState): (r: (Result<bool>, bool, FsState))
    ensures r.2.faults == s.faults
  {
    var released := ReleaseSpec(no, inited, s);
    var flag, s1 := released.0, released.1;
    var exportStatus := WriteStatus(s1, ExportPath, Render(no));
    var s2 := AfterWrite(s1, ExportPath, Render(no));
    if exportStatus.Failed? then (Ok(false), flag, s2)
    else
      var dirStatus := WriteStatus(s2, DirectionPath(no), mode);
      var s3 := AfterWrite(s2, DirectionPath(no), mode);
      match dirStatus
      case Done => (Ok(true), true, s3)
      case Failed(NotFound) => (Ok(false), flag, s3)
      case Failed(IoFailure) => (Err(IoFailure), flag, s3)
  }

  /** `read()`: the decoded value, or the fault that escapes. */
  function ReadSpec(no: int, s: FsState): (r: Result<int>)
    ensures r.Ok? ==> r.value == 0 || r.value == 1
  {
    match ReadResult(s, ValuePath(no))
    case Ok(data) => Ok(DecodeValue(data))
    case Err(f) => Err(f)
  }

  /** `write(value)`: how the single-byte write ended, and the new filesystem state. */
  function WriteSpec(no: int, value: int, s: FsState): (r: (Status, FsState))
    ensures r.1.log == s.log + [Entry(ValuePath(no), [EncodeValue(value)], r.0)]
    ensures r.1.exported == s.exported && r.1.faults == s.faults
    ensures r.0 == Done ==> r.1.files == s.files[ValuePath(no) := [EncodeValue(value)]]
    ensures r.0.Failed? ==> r.1.files == s.files
  {
    PinPathsDistinct(no, no);
    var data := [EncodeValue(value)];
    (WriteStatus(s, ValuePath(no), data), AfterWrite(s, ValuePath(no), data))
  }

  /** A handle on one GPIO pin. */
  class Gpio {
    const no: int
    const mode: string
    const fs: FileSystem
    var isInited: bool

    constructor (no: int, mode: string, fs: FileSystem)
      ensures this.no == no && this.mode == mode && this.fs == fs
      ensures !isInited
    {
      this.no := no;
      this.mode := mode;
      this.fs := fs;
      isInited := false;
    }

    /**
      Releases the pin if it is initialised, exports it, and writes the
      direction. Returns false when the export fails or the direction file
      cannot be opened, and Err when writing the direction fails otherwise.
     */
    method Init() returns (r: Result<bool>)
      modifies this, fs
      ensures (r, isInited, fs.Model()) == InitSpec(no, mode, old(isInited), old(fs.Model()))
      ensures r == Ok(true) ==> isInited && no in fs.exported
      ensures isInited && !old(isInited) ==> r == Ok(true)
    {
      ghost var s := fs.Model();
      InitOutcome(no, mode, isInited, s);
      InitSucceeds(no, mode, isInited, s);
      if isInited {
        Release();
      }
      var exported := fs.Write(ExportPath, Render(no));
      if exported.Failed? {
        return Ok(false);
      }
      var directed := fs.Write(DirectionPath(no), mode);
      if directed == Failed(NotFound) {
        return Ok(false);
      }
      if directed.Failed? {
        return Err(directed.fault);
      }
      isInited := true;
      return Ok(true);
    }

    /** Reads the value file: 1 when its first byte is '1', 0 otherwise. */
    method Read() returns (r: Result<int>)
      ensures r == ReadSpec(no, fs.Model())
      ensures r.Ok? ==> r.value == 0 || r.value == 1
    {
      var data := fs.Read(ValuePath(no));
      match data
      case Ok(d) =>
        r := Ok(DecodeValue(d));
      case Err(f) =>
        r := Err(f);
    }

    /** Writes the first character of `value`'s decimal rendering to the value file. */
    method Write(value: int) returns (st: Status)
      modifies fs
      ensures (st, fs.Model()) == WriteSpec(no, value, old(fs.Model()))
      ensures fs.log == old(fs.log) + [Entry(ValuePath(no), [EncodeValue(value)], st)]
    {
      st := fs.Write(ValuePath(no), [EncodeValue(value)]);
    }

    /**
      Writes the pin number to `unexport` if the pin is initialised, and
      clears `isInited` only when that write succeeds. Never fails.
     */
    method Release()
      modifies this, fs
      ensures (isInited, fs.Model()) == ReleaseSpec(no, old(isInited), old(fs.Model()))
      ensures !old(isInited) ==> !isInited && fs.Model() == old(fs.Model())
    {
      if isInited {
        var st := fs.Write(UnexportPath, Render(no));
        if st.Done? {
          isInited := false;
        }
      }
    }

    /** `close()` only releases the pin. */
    method Close()
      modifies this, fs
      ensures (isInited, fs.Model()) == ReleaseSpec(no, old(isInited), old(fs.Model()))
      ensures !old(isInited) ==> !isInited && fs.Model() == old(fs.Model())
    {
      Release();
    }
  }

  /** When the handle is initialised, release logs exactly one write, of the pin number to `unexport`. */
  lemma ReleaseWritesUnexport(no: int, s: FsState)
    ensures ReleaseSpec(no, true, s).1.log ==
            s.log + [Entry(UnexportPath, Render(no),
                           if UnexportPath in s.faults then Failed(s.faults[UnexportPath]) else Done)]
    ensures UnexportPath !in s.faults ==> ReleaseSpec(no, true, s).1.exported == s.exported - {no}
    ensures UnexportPath in s.faults ==> ReleaseSpec(no, true, s).1.exported == s.exported
  {
    UnexportWrite(s, no);
  }

  /** The writes `init` logs after the release step: the export, then the direction write unless the export failed. */
  function InitWrites(no: int, mode: string, s: FsState): (w: seq<Entry>)
    ensures 1 <= |w| <= 2 && w[0].path == ExportPath
  {
    if ExportPath in s.faults then [Entry(ExportPath, Render(no), Failed(s.faults[ExportPath]))]
    else [Entry(ExportPath, Render(no), Done),
          Entry(DirectionPath(no), mode,
                if DirectionPath(no) in s.faults then Failed(s.faults[DirectionPath(no)]) else Done)]
  }

  /**
    The whole log of `init`: the unexport write when the handle was
    initialised, and then the writes of InitWrites; so a release always
    comes before the new export.
   */
  lemma InitLog(no: int, mode: string, inited: bool, s: FsState)
    ensures InitSpec(no, mode, inited, s).2.log ==
            ReleaseSpec(no, inited, s).1.log + InitWrites(no, mode, s)
    ensures inited ==>
              (InitSpec(no, mode, inited, s).2.log[|s.log|] ==
               Entry(UnexportPath, Render(no),
                     if UnexportPath in s.faults then Failed(s.faults[UnexportPath]) else Done))
  {
    var s1 := ReleaseSpec(no, inited, s).1;
    ExportWrite(s1, no);
    PinPathsDistinct(no, no);
    if inited {
      ReleaseWritesUnexport(no, s);
    }
  }

  /**
    What `init` returns, and when: false if the export fails (whatever the
    direction file would do), true if both writes succeed, false if the
    direction file cannot be opened, and Err for any other direction fault.
   */
  lemma InitOutcome(no: int, mode: string, inited: bool, s: FsState)
    ensures InitSpec(no, mode, inited, s).0 ==
            if ExportPath in s.faults then Ok(false)
            else if DirectionPath(no) !in s.faults then Ok(true)
            else if s.faults[DirectionPath(no)] == NotFound then Ok(false)
            else Err(IoFailure)
  {
    var s1 := ReleaseSpec(no, inited, s).1;
    ExportWrite(s1, no);
    PinPathsDistinct(no, no);
  }

  /**
    A successful `init` leaves the pin exported, its direction file holding
    `mode`, and `isInited` set, with no other pin or file changed; and
    `isInited` becomes true in no other way.
   */
  lemma InitSucceeds(no: int, mode: string, inited: bool, s: FsState)
    ensures InitSpec(no, mode, inited, s).0 == Ok(true) ==>
              var t := InitSpec(no, mode, inited, s).2;
              InitSpec(no, mode, inited, s).1 &&
              no in t.exported && DirectionPath(no) in t.files && t.files[DirectionPath(no)] == mode &&
              t.exported == ReleaseSpec(no, inited, s).1.exported + {no} &&
              t.files == s.files[DirectionPath(no) := mode]
    ensures InitSpec(no, mode, inited, s).1 ==>
              InitSpec(no, mode, inited, s).0 == Ok(true) || ReleaseSpec(no, inited, s).0
  {
    var s1 := ReleaseSpec(no, inited, s).1;
    ExportWrite(s1, no);
    PinPathsDistinct(no, no);
  }

  /**
    `init` on one pin never touches the direction file of another: only the
    pin's own direction file can change, and it holds `mode` if it does.
   */
  lemma InitLeavesOtherPins(no: int, other: int, mode: string, inited: bool, s: FsState)
    requires other != no
    ensures var t := InitSpec(no, mode, inited, s).2;
            (DirectionPath(other) in t.files <==> DirectionPath(other) in s.files) &&
            (DirectionPath(other) in s.files ==> t.files[DirectionPath(other)] == s.files[DirectionPath(other)])
  {
    var s1 := ReleaseSpec(no, inited, s).1;
    ExportWrite(s1, no);
    PinPathsDistinct(no, no);
    DirectionPathInjective(no, other);
  }

  /** A failed export ends `init` with false, before any direction write, and leaves `isInited` as release left it. */
  lemma InitExportFails(no: int, mode: string, inited: bool, s: FsState)
    requires ExportPath in s.faults
    ensures var r := InitSpec(no, mode, inited, s);
            r.0 == Ok(false) && r.1 == ReleaseSpec(no, inited, s).0 &&
            r.2.exported == ReleaseSpec(no, inited, s).1.exported &&
            |r.2.log| == |ReleaseSpec(no, inited, s).1.log| + 1 &&
            forall i :: |s.log| <= i < |r.2.log| ==> r.2.log[i].path != DirectionPath(no)
  {
    var s1 := ReleaseSpec(no, inited, s).1;
    ExportWrite(s1, no);
    PinPathsDistinct(no, no);
    InitLog(no, mode, inited, s);
  }

  /**
    A direction file that cannot be opened ends `init` with false after the
    export has already happened: the pin is exported, but this call did not
    set `isInited` (on a handle that was not initialised it stays false).
   */
  lemma InitDirectionMissing(no: int, mode: string, inited: bool, s: FsState)
    requires ExportPath !in s.faults
    requires DirectionPath(no) in s.faults && s.faults[DirectionPath(no)] == NotFound
    ensures var r := InitSpec(no, mode, inited, s);
            r.0 == Ok(false) && no in r.2.exported &&
            r.1 == ReleaseSpec(no, inited, s).0 && (!inited ==> !r.1)
  {
    var s1 := ReleaseSpec(no, inited, s).1;
    ExportWrite(s1, no);
    PinPathsDistinct(no, no);
  }

  /** Any other failure of the direction write escapes `init` as an error, again after the export. */
  lemma InitDirectionIoFailure(no: int, mode: string, inited: bool, s: FsState)
    requires ExportPath !in s.faults
    requires DirectionPath(no) in s.faults && s.faults[DirectionPath(no)] == IoFailure
    ensures var r := InitSpec(no, mode, inited, s);
            r.0 == Err(IoFailure) && no in r.2.exported && r.1 == ReleaseSpec(no, inited, s).0
  {
    var s1 := ReleaseSpec(no, inited, s).1;
    ExportWrite(s1, no);
    PinPathsDistinct(no, no);
  }

  /**
    Calling `init` twice: after a first successful call, the second one
    logs the unexport of the pin and then its export, so exactly one
    unexport write lies between the two export writes.
   */
  lemma InitTwice(no: int, mode: string, inited: bool, s: FsState)
    requires InitSpec(no, mode, inited, s).0 == Ok(true)
    ensures var first := InitSpec(no, mode, inited, s);
            var second := InitSpec(no, mode, first.1, first.2);
            var n := |first.2.log|;
            |second.2.log| >= n + 2 &&
            second.2.log[n - 2].path == ExportPath &&
            second.2.log[n - 1].path == DirectionPath(no) &&
            second.2.log[n].path == UnexportPath && second.2.log[n].data == Render(no) &&
            second.2.log[n + 1].path == ExportPath
  {
    var first := InitSpec(no, mode, inited, s);
    InitOutcome(no, mode, inited, s);
    InitSucceeds(no, mode, inited, s);
    InitLog(no, mode, inited, s);
    InitLog(no, mode, first.1, first.2);
  }

  /** A value written with `write(0)` or `write(1)` is read back by `read()`. */
  lemma WriteThenRead(no: int, value: int, s: FsState)
    requires value == 0 || value == 1
    requires ValuePath(no) !in s.faults
    ensures var w := WriteSpec(no, value, s);
            w.0 == Done && ReadSpec(no, w.1) == Ok(value)
  {
    PinPathsDistinct(no, no);
  }

  /** `write(v)` sends the leading digit of a non-negative `v`: '0' for 0, '1' for 1, and '1' again for 10 to 19. */
  lemma WriteSendsLeadingDigit(value: nat)
    ensures EncodeValue(value) == DigitChar(LeadingDigit(value))
    ensures value < 10 ==> EncodeValue(value) == DigitChar(value)
  {
    RenderStartsWithLeadingDigit(value);
  }

  /**
    The whole lifecycle on a pin whose files raise no faults: `init`
    succeeds, `write(1)` then `read()` gives 1, and `release()` clears the
    flag and leaves the set of exported pins as it was before `init`.
   */
  lemma Lifecycle(no: int, mode: string, s: FsState)
    requires no !in s.exported
    requires ExportPath !in s.faults && UnexportPath !in s.faults
    requires DirectionPath(no) !in s.faults && ValuePath(no) !in s.faults
    ensures var i := InitSpec(no, mode, false, s);
            var w := WriteSpec(no, 1, i.2);
            var rel := ReleaseSpec(no, i.1, w.1);
            i.0 == Ok(true) && i.1 && w.0 == Done && ReadSpec(no, w.1) == Ok(1) &&
            !rel.0 && rel.1.exported == s.exported
  {
    var i := InitSpec(no, mode, false, s);
    InitOutcome(no, mode, false, s);
    InitSucceeds(no, mode, false, s);
    var w := WriteSpec(no, 1, i.2);
    WriteThenRead(no, 1, i.2);
    ReleaseWritesUnexport(no, w.1);
    var s1 := ReleaseSpec(no, false, s).1;
    ExportWrite(s1, no);
    PinPathsDistinct(no, no);
  }
}
