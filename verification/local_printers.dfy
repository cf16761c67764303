/** `getLocalPrinters`: choosing the reader by platform, and the policy
    that any command failure yields an empty list rather than an error.
    The commands themselves and `JSON.parse` are parameters. */
module LocalPrinters {
  import opened Wrappers
  import opened Json
  import Lpstat
  import Windows

  /** How a command run ended: an error (non-zero exit, missing command,
      timeout) or its standard output. */
  datatype CommandResult = Failed | Exited(stdout: string)

  /** A local printer, in the shape of the reader that produced it. */
  datatype LocalPrinter =
    | Posix(lpstat: Lpstat.LpstatPrinter)
    | PowerShell(entry: Windows.WinPrinter)
    | Wmic(name: string)

  /** `err || !stdout` is false: the command succeeded and printed something. */
  predicate HasOutput(c: CommandResult) {
    c.Exited? && c.stdout != ""
  }

  /** The POSIX reader: `lpstat -p -d`, parsed. */
  function PosixPrinters(lpstat: CommandResult): (r: seq<LocalPrinter>)
    ensures forall i :: 0 <= i < |r| ==> r[i].Posix?
    ensures !HasOutput(lpstat) ==> r == []
    ensures HasOutput(lpstat) ==> var ps := Lpstat.ParseLpstat(lpstat.stdout);
      |r| == |ps| && forall i :: 0 <= i < |r| ==> r[i] == Posix(ps[i])
  {
    if !HasOutput(lpstat) then []
    else
      var ps := Lpstat.ParseLpstat(lpstat.stdout);
      seq(|ps|, i requires 0 <= i < |ps| => Posix(ps[i]))
  }

  /** The Windows reader: the PowerShell query when it printed something,
      the `wmic` fallback otherwise. Output that does not parse as JSON, or
      whose normalisation throws, yields no printers and no fallback. */
  function WindowsPrinters(powerShell: CommandResult, parseJson: string -> Option<Value>, wmic: CommandResult): (r: seq<LocalPrinter>)
    ensures !HasOutput(powerShell) ==> forall i :: 0 <= i < |r| ==> r[i].Wmic?
    ensures !HasOutput(powerShell) && !HasOutput(wmic) ==> r == []
    ensures !HasOutput(powerShell) && HasOutput(wmic) ==> var names := Windows.WmicNames(wmic.stdout);
      |r| == |names| && forall i :: 0 <= i < |r| ==> r[i] == Wmic(names[i])
    ensures HasOutput(powerShell) ==> forall i :: 0 <= i < |r| ==> r[i].PowerShell?
    ensures HasOutput(powerShell) && parseJson(powerShell.stdout).None? ==> r == []
    ensures HasOutput(powerShell) && parseJson(powerShell.stdout).Some? ==>
      var e := Windows.FromJson(parseJson(powerShell.stdout).value);
      && (e.None? ==> r == [])
      && (e.Some? ==> |r| == |e.value| && forall i :: 0 <= i < |r| ==> r[i] == PowerShell(e.value[i]))
  {
    if !HasOutput(powerShell) then
      if !HasOutput(wmic) then []
      else
        var names := Windows.WmicNames(wmic.stdout);
        seq(|names|, i requires 0 <= i < |names| => Wmic(names[i]))
    else
      match parseJson(powerShell.stdout)
      case None => []
      case Some(data) =>
        match Windows.FromJson(data)
        case None => []
        case Some(entries) => seq(|entries|, i requires 0 <= i < |entries| => PowerShell(entries[i]))
  }

  /** `getLocalPrinters()`: on "win32" the Windows reader, on every other
      platform the POSIX one; it never fails. */
  function GetLocalPrinters(platform: string, lpstat: CommandResult, powerShell: CommandResult,
                            parseJson: string -> Option<Value>, wmic: CommandResult): (r: seq<LocalPrinter>)
    ensures platform != "win32" ==> forall i :: 0 <= i < |r| ==> r[i].Posix?
    ensures platform == "win32" ==> forall i :: 0 <= i < |r| ==> !r[i].Posix?
  {
    if platform == "win32" then WindowsPrinters(powerShell, parseJson, wmic)
    else PosixPrinters(lpstat)
  }
}
