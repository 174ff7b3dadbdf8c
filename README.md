# LibGpio pin handle, modelled in Dafny

LibGpio's `GPIO` class drives one Linux GPIO pin through the sysfs control
files. `/sys/class/gpio/export` and `/sys/class/gpio/unexport` take a
decimal pin number. `gpio<N>/direction` takes the direction string.
`gpio<N>/value` holds the pin's level as one ASCII byte. A handle keeps the
pin number `no`, the direction `mode` and one flag, `isInited`.

This project models that handle as a Dafny class, `LibGpio.Gpio`. Its
methods update `isInited` and write to an abstract filesystem,
`SysFs.FileSystem`, which holds:

- the set of exported pins;
- the contents of the other files, as a map from path to string;
- a fixed failure outcome per path: `NotFound` stands for
  `FileNotFoundException`, `IoFailure` for any other `IOException`;
- the ordered log of every write attempted, each with how it ended.

A successful write to `export` (`unexport`) adds (removes) the pin it names.
That number is read back as a decimal, and a write that is not one fails.
A successful write to any other path replaces that file's contents.
A failed write is logged and changes nothing else.

Each operation has a pure specification function of the old flag and the old
filesystem state: `ReleaseSpec`, `InitSpec`, `ReadSpec`, `WriteSpec`. Each
method is proved equal to its function, and the lemmas state the lifecycle
properties over all inputs. A handle is built with the filesystem it
writes to. In Java that filesystem is the machine's own.

Modules:

- `Decimal` (decimal.dfy): Java's rendering of an `int` (`no + ""`), a
  decimal parser, and the round trip between them.
- `SysFs` (sysfs.dfy): paths, faults, the filesystem state and class
  `FileSystem`.
- `LibGpio` (gpio.dfy): class `Gpio`, its specification functions and the
  lemmas.

Points where GPIO.java's behaviour is easy to misread:

- `init` takes no edge-detection flag and never writes an `edge` file.
- `release` clears `isInited` only when the unexport write succeeds.
- `read` on a pin that is not exported is not a distinct error. It fails only
  because the value file cannot be opened.
- Only `FileNotFoundException` from the direction step makes `init` return
  false. Any other `IOException` there escapes `init`. This is modelled as
  `Err(IoFailure)`.

## Model

| member | source | states |
|---|---|---|
| `Decimal.Render` | src/main/java/tech/yaog/gpio/GPIO.java:23 | the rendering of a pin number is non-empty, starts with '-' exactly for negative numbers, and is digits otherwise |
| `Decimal.RenderParse` | src/main/java/tech/yaog/gpio/GPIO.java:22-24 | the number the kernel reads back from the written rendering is the pin number itself |
| `Decimal.RenderInjective` | src/main/java/tech/yaog/gpio/GPIO.java:30 | two pin numbers render alike if and only if they are equal |
| `Decimal.LeadingDigit` | src/main/java/tech/yaog/gpio/GPIO.java:56 | the leading digit is below 10, and is 0 only for 0 |
| `Decimal.RenderStartsWithLeadingDigit` | src/main/java/tech/yaog/gpio/GPIO.java:56 | the first character of a non-negative number's rendering is its most significant digit |
| `SysFs.ExportWrite` | src/main/java/tech/yaog/gpio/GPIO.java:22-24 | writing the rendered pin number to `export` fails only by the path's own fault; when it succeeds, that pin is added to the exported set |
| `SysFs.UnexportWrite` | src/main/java/tech/yaog/gpio/GPIO.java:63-66 | writing the rendered pin number to `unexport` fails only by the path's own fault; when it succeeds, that pin is removed from the exported set |
| `SysFs.PinPathsDistinct` | src/main/java/tech/yaog/gpio/GPIO.java:30-42 | per-pin direction and value paths are never `export` or `unexport`, and no direction path is a value path |
| `SysFs.DirectionPathInjective` | src/main/java/tech/yaog/gpio/GPIO.java:30 | two pins share a direction file if and only if they are the same pin |
| `SysFs.FileSystem.Write` | src/main/java/tech/yaog/gpio/GPIO.java:22-25 | a write (as at lines 22-25, 30-32, 55-57 and 63-66) ends with the path's fixed fault, with an I/O failure when a non-number is written to `export` or `unexport`, or with success; it is logged; on success it adds (removes) the named pin for `export` (`unexport`) and otherwise replaces the file's contents; a failed write changes nothing else |
| `SysFs.FileSystem.Read` | src/main/java/tech/yaog/gpio/GPIO.java:42 | opening a file for reading gives its contents, the path's fault, or NotFound when the file does not exist; nothing changes |
| `LibGpio.EncodeValue` | src/main/java/tech/yaog/gpio/GPIO.java:56 | the byte sent for `value` is '-' exactly when it is negative, and a digit otherwise |
| `LibGpio.DecodeValue` | src/main/java/tech/yaog/gpio/GPIO.java:43-50 | the decoded level is always 0 or 1, and is 1 exactly when the file is non-empty and starts with '1'; the empty file reads as 0 |
| `LibGpio.ReleaseSpec` | src/main/java/tech/yaog/gpio/GPIO.java:61-74 | on a handle that is not initialised, release changes nothing; on an initialised one, the flag stays set exactly when the unexport path faults; files and faults are untouched |
| `LibGpio.InitSpec` | src/main/java/tech/yaog/gpio/GPIO.java:18-39 | init never changes the fault setup; what it logs, returns and sets is stated by InitLog, InitOutcome and InitSucceeds |
| `LibGpio.ReadSpec` | src/main/java/tech/yaog/gpio/GPIO.java:41-52 | a successful read yields 0 or 1 |
| `LibGpio.WriteSpec` | src/main/java/tech/yaog/gpio/GPIO.java:54-59 | write logs exactly one entry, the single byte EncodeValue(value) to the pin's value file, and changes neither the exported set nor the faults; on success the value file alone becomes that byte, and on failure no file changes |
| `LibGpio.InitWrites` | src/main/java/tech/yaog/gpio/GPIO.java:22-36 | after its release step, init logs one or two writes, and the first is to `export` |
| `LibGpio.Gpio.constructor` | src/main/java/tech/yaog/gpio/GPIO.java:13-16 | a new handle keeps the given pin number and mode and is not initialised |
| `LibGpio.Gpio.Init` | src/main/java/tech/yaog/gpio/GPIO.java:18-39 | init's result, new flag and new filesystem are those of InitSpec; a true result means the flag is set and the pin exported; the flag goes from clear to set only when the result is true |
| `LibGpio.Gpio.Read` | src/main/java/tech/yaog/gpio/GPIO.java:41-52 | read returns ReadSpec of the current filesystem, so a value of 0 or 1, or the fault of opening the value file |
| `LibGpio.Gpio.Write` | src/main/java/tech/yaog/gpio/GPIO.java:54-59 | write follows WriteSpec; the log grows by exactly the one-byte write to the value file |
| `LibGpio.Gpio.Release` | src/main/java/tech/yaog/gpio/GPIO.java:61-74 | release follows ReleaseSpec and never fails; on a handle that is not initialised it changes neither the flag nor the filesystem |
| `LibGpio.Gpio.Close` | src/main/java/tech/yaog/gpio/GPIO.java:76-79 | close does exactly what release does |
| `LibGpio.ReleaseWritesUnexport` | src/main/java/tech/yaog/gpio/GPIO.java:63-72 | on an initialised handle, release logs exactly one write, of the decimal pin number to `unexport`; if it succeeds the pin leaves the exported set, and if it fails the exported set is unchanged |
| `LibGpio.InitLog` | src/main/java/tech/yaog/gpio/GPIO.java:19-36 | init's log is the release step's log followed by the export write and then, only if the export succeeded, the direction write of `mode`; on an initialised handle the first new entry is the unexport |
| `LibGpio.InitOutcome` | src/main/java/tech/yaog/gpio/GPIO.java:22-38 | init returns false when the export faults, true when neither write faults, false when the direction file cannot be opened, and an error for any other direction fault |
| `LibGpio.InitSucceeds` | src/main/java/tech/yaog/gpio/GPIO.java:22-38 | after a true result the flag is set, the exported set is the released one plus the pin, and the files are the old ones with the direction file holding `mode`; the flag is set afterwards only after a true result or a failed release |
| `LibGpio.InitLeavesOtherPins` | src/main/java/tech/yaog/gpio/GPIO.java:30-32 | init on one pin leaves the direction file of every other pin exactly as it was |
| `LibGpio.InitExportFails` | src/main/java/tech/yaog/gpio/GPIO.java:22-29 | a failed export returns false after exactly one new write besides the release, with no direction write, the exported set as release left it, and the flag as release left it |
| `LibGpio.InitDirectionMissing` | src/main/java/tech/yaog/gpio/GPIO.java:30-36 | a direction file that cannot be opened returns false with the pin already exported, and this call does not set the flag |
| `LibGpio.InitDirectionIoFailure` | src/main/java/tech/yaog/gpio/GPIO.java:30-36 | any other direction fault escapes init as an error, with the pin already exported and the flag not set by this call |
| `LibGpio.InitTwice` | src/main/java/tech/yaog/gpio/GPIO.java:19-24 | after a successful init, a second init logs the unexport of the pin and then its export, so exactly one unexport lies between the two export writes |
| `LibGpio.WriteThenRead` | src/main/java/tech/yaog/gpio/GPIO.java:41-58 | `write(0)` or `write(1)` to a value file without faults succeeds, and `read()` afterwards returns the same level |
| `LibGpio.WriteSendsLeadingDigit` | src/main/java/tech/yaog/gpio/GPIO.java:56-57 | `write(v)` for a non-negative `v` sends its leading digit, which is the digit of `v` itself below 10 |
| `LibGpio.Lifecycle` | src/main/java/tech/yaog/gpio/GPIO.java:18-74 | with no faults on the pin's paths: init succeeds, `write(1)` then `read()` gives 1, and release clears the flag and restores the exported set |

## Left out

- `main` (GPIO.java:81-97): a demo driver that waits on console input.
- Stream handling: `flush`, closing the streams, UTF-8 encoding and
  `printStackTrace`. File contents are strings whose characters stand for
  bytes, which is exact for the digits the core writes. Error reporting is a
  no-op.
- An `IOException` raised while closing a stream after a successful write is
  not modelled. Each write ends in one outcome, and a failed write has no
  effect.
- Kernel behaviour beyond the exported set: pin directories appearing on
  export, refusing an already exported pin or an invalid pin number, a
  direction other than "in"/"out". Every such failure is the fixed fault of
  its path. The kernel's parser also accepts octal and hex prefixes; the
  model's decimal parser is only enough for what GPIO.java writes.
- Faults are fixed per path, not per write. A sequence of calls on one
  filesystem therefore cannot show a transient fault, such as an export
  that succeeds once and fails the next time.
- `LibGpio.ReadSpec`: a read that returns fewer bytes than the file
  holds is not modelled. A non-empty file always yields its first byte.
- Java's 32-bit `int` for the pin number and the written value: the model
  uses unbounded integers. The code does no arithmetic on them, so only
  their decimal rendering matters.
- GPIO.java has no edge-detection step and no change-notification watcher,
  so neither is modelled.
