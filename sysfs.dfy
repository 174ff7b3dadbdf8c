/**
  An abstract model of the Linux sysfs GPIO interface as GPIO.java sees it:
  the set of exported pins, the contents of the per-pin files, a fixed
  failure outcome per path, and the ordered log of every write attempted.
 */
module SysFs {
  import opened Decimal

  type Path = string

  const ExportPath: Path := "/sys/class/gpio/export"
  const UnexportPath: Path := "/sys/class/gpio/unexport"

  /** `/sys/class/gpio/gpio<no>/<file>`, with `no` rendered as Java does. */
  function PinPath(no: int, file: string): Path {
    "/sys/class/gpio/gpio" + Render(no) + "/" + file
  }

  function DirectionPath(no: int): Path {
    PinPath(no, "direction")
  }

  function ValuePath(no: int): Path {
    PinPath(no, "value")
  }

  /** The two exceptions GPIO.java tells apart. */
  datatype Fault =
    | NotFound   // FileNotFoundException: the file could not be opened
    | IoFailure  // any other IOException, raised while writing or reading

  datatype Status = Done | Failed(fault: Fault)

  datatype Result<T> = Ok(value: T) | Err(fault: Fault)

  /** One attempted write: where, what, and how it ended. */
  datatype Entry = Entry(path: Path, data: string, status: Status)

  datatype FsState = FsState(
    exported: set<int>,
    files: map<Path, string>,
    faults: map<Path, Fault>,
    log: seq<Entry>)

  predicate IsControl(path: Path) {
    path == ExportPath || path == UnexportPath
  }

  /**
    How a write ends: with the fault the path is set up to raise, with an
    I/O failure when `export`/`unexport` is given something that is not a
    number (the kernel refuses it), and otherwise successfully.
   */
  function WriteStatus(s: FsState, path: Path, data: string): (st: Status)
    ensures path in s.faults ==> st == Failed(s.faults[path])
    ensures path !in s.faults && !IsControl(path) ==> st == Done
  {
    if path in s.faults then Failed(s.faults[path])
    else if IsControl(path) && Parse(data).None? then Failed(IoFailure)
    else Done
  }

  /**
    The state after a write: the attempt is logged; a successful write to
    `export` (`unexport`) adds (removes) the pin it names, and one to any
    other path replaces that file's contents; a failed write changes nothing else.
   */
  function AfterWrite(s: FsState, path: Path, data: string): (t: FsState)
    ensures t.faults == s.faults
    ensures t.log == s.log + [Entry(path, data, WriteStatus(s, path, data))]
    ensures WriteStatus(s, path, data).Failed? ==> t.exported == s.exported && t.files == s.files
    ensures !IsControl(path) ==> t.exported == s.exported
    ensures IsControl(path) ==> t.files == s.files
  {
    var st := WriteStatus(s, path, data);
    var log := s.log + [Entry(path, data, st)];
    if st.Failed? then s.(log := log)
    else if path == ExportPath then s.(exported := s.exported + {Parse(data).value}, log := log)
    else if path == UnexportPath then s.(exported := s.exported - {Parse(data).value}, log := log)
    else s.(files := s.files[path := data], log := log)
  }

  /** Opening a file for reading fails with its path's fault, or NotFound when it does not exist. */
  function ReadResult(s: FsState, path: Path): (r: Result<string>)
    ensures r.Ok? <==> path !in s.faults && path in s.files
    ensures r.Ok? ==> r.value == s.files[path]
  {
    if path in s.faults then Err(s.faults[path])
    else if path in s.files then Ok(s.files[path])
    else Err(NotFound)
  }

  /** Writing a rendered pin number to `export` fails only when the path is set up to fail, and then adds that pin. */
  lemma ExportWrite(s: FsState, no: int)
    ensures WriteStatus(s, ExportPath, Render(no)) ==
            (if ExportPath in s.faults then Failed(s.faults[ExportPath]) else Done)
    ensures ExportPath !in s.faults ==> AfterWrite(s, ExportPath, Render(no)).exported == s.exported + {no}
  {
    RenderParse(no);
  }

  /** Writing a rendered pin number to `unexport` fails only when the path is set up to fail, and then removes that pin. */
  lemma UnexportWrite(s: FsState, no: int)
    ensures WriteStatus(s, UnexportPath, Render(no)) ==
            (if UnexportPath in s.faults then Failed(s.faults[UnexportPath]) else Done)
    ensures UnexportPath !in s.faults ==> AfterWrite(s, UnexportPath, Render(no)).exported == s.exported - {no}
  {
    RenderParse(no);
  }

  /** Per-pin files are never the control files, and the direction and value files of any two pins differ. */
  lemma PinPathsDistinct(no: int, other: int)
    ensures !IsControl(DirectionPath(no)) && !IsControl(ValuePath(no))
    ensures DirectionPath(no) != ValuePath(other)
  {
    assert DirectionPath(no)[16] == 'g' && ValuePath(no)[16] == 'g';
    assert ExportPath[16] == 'e' && UnexportPath[16] == 'u';
    var d, v := DirectionPath(no), ValuePath(other);
    assert d[|d| - 1] == 'n' && v[|v| - 1] == 'e';
  }

  /** The direction files of two pins are the same file exactly when the pins are the same. */
  lemma DirectionPathInjective(a: int, b: int)
    ensures DirectionPath(a) == DirectionPath(b) <==> a == b
  {
    var prefix := "/sys/class/gpio/gpio";
    if DirectionPath(a) == DirectionPath(b) {
      var pa, pb := DirectionPath(a), DirectionPath(b);
      assert |Render(a)| == |Render(b)|;
      assert Render(a) == pa[|prefix|..|prefix| + |Render(a)|];
      assert Render(b) == pb[|prefix|..|prefix| + |Render(b)|];
      RenderInjective(a, b);
    }
  }

  /** The filesystem every GPIO handle writes to. */
  class FileSystem {
    var exported: set<int>
    var files: map<Path, string>
    var faults: map<Path, Fault>
    var log: seq<Entry>

    function Model(): FsState
      reads this
    {
      FsState(exported, files, faults, log)
    }

    constructor (exported: set<int>, files: map<Path, string>, faults: map<Path, Fault>)
      ensures Model() == FsState(exported, files, faults, [])
    {
      this.exported := exported;
      this.files := files;
      this.faults := faults;
      this.log := [];
    }

    /** Opens `path`, writes `data` to it and closes it. */
    method Write(path: Path, data: string) returns (st: Status)
      modifies this
      ensures st == WriteStatus(old(Model()), path, data)
      ensures Model() == AfterWrite(old(Model()), path, data)
    {
      st := WriteStatus(Model(), path, data);
      var t := AfterWrite(Model(), path, data);
      exported, files, log := t.exported, t.files, t.log;
    }

    /** Opens `path` and reads its contents; reading changes nothing. */
    method Read(path: Path) returns (r: Result<string>)
      ensures r == ReadResult(Model(), path)
    {
      if path in faults {
        r := Err(faults[path]);
      } else if path in files {
        r := Ok(files[path]);
      } else {
        r := Err(NotFound);
      }
    }
  }
}
