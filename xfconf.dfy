/** The `xfconf-query` invocations both variants build to point XFCE's
    per-monitor backdrop properties at an image. */
module Xfconf {

  /** A subprocess argument vector. */
  type Argv = seq<string>

  const Channel: string := "xfce4-desktop"
  const PropertyPrefix: string := "/backdrop/screen0/monitor"
  const LastImageSuffix: string := "/workspace0/last-image"
  const ImagePathSuffix: string := "/workspace0/image-path"

  /** The options that create a missing property, typed as a string. */
  const CreateAsString: Argv := ["--create", "-t", "string"]

  function LastImageProperty(monitor: string): string {
    PropertyPrefix + monitor + LastImageSuffix
  }

  function ImagePathProperty(monitor: string): string {
    PropertyPrefix + monitor + ImagePathSuffix
  }

  /** The xfconf-query invocation that sets one property of the desktop
      channel to a value. */
  function SetProperty(property: string, value: string): Argv {
    ["xfconf-query", "-c", Channel, "-p", property, "-s", value]
  }

  /** Each property names its monitor: different monitors never share a
      property, and a monitor's two properties differ. */
  lemma PropertiesPerMonitor(m1: string, m2: string)
    ensures LastImageProperty(m1) == LastImageProperty(m2) <==> m1 == m2
    ensures ImagePathProperty(m1) == ImagePathProperty(m2) <==> m1 == m2
    ensures LastImageProperty(m1) != ImagePathProperty(m2)
  {
    if LastImageProperty(m1) == LastImageProperty(m2) {
      InfixCancel(PropertyPrefix, m1, m2, LastImageSuffix);
    }
    if ImagePathProperty(m1) == ImagePathProperty(m2) {
      InfixCancel(PropertyPrefix, m1, m2, ImagePathSuffix);
    }
    var a, b := LastImageProperty(m1), ImagePathProperty(m2);
    assert a[|a| - 1] == 'e' && b[|b| - 1] == 'h';
  }

  lemma InfixCancel(p: string, x: string, y: string, s: string)
    requires p + x + s == p + y + s
    ensures x == y
  {
    var a := p + x + s;
    assert |x| == |y|;
    assert x == a[|p|..|p| + |x|];
    assert y == (p + y + s)[|p|..|p| + |y|];
  }
}

/** Starting external programs one after another, as `subprocess.run` does
    in a loop: a program that cannot be started raises, which ends the loop.
    Exit codes are not checked, so a program that starts never stops it.
    Whether a program can be started is a parameter. */
module Shell {
  import opened Common
  import opened Xfconf

  predicate AllStart(cmds: seq<Argv>, starts: Argv -> bool) {
    forall i :: 0 <= i < |cmds| ==> starts(cmds[i])
  }

  /** The commands the loop attempts: all of them, or those up to and
      including the first that could not be started. */
  function Attempted(cmds: seq<Argv>, starts: Argv -> bool): (r: seq<Argv>)
    ensures |r| <= |cmds|
  {
    if cmds == [] then []
    else if !starts(cmds[0]) then [cmds[0]]
    else [cmds[0]] + Attempted(cmds[1..], starts)
  }

  /** Starts each command in turn, stopping at the first that cannot be
      started. */
  method RunCommands(cmds: seq<Argv>, starts: Argv -> bool) returns (issued: seq<Argv>, ok: bool)
    ensures ok == AllStart(cmds, starts)
    ensures issued == Attempted(cmds, starts)
  {
    issued := [];
    var i := 0;
    while i < |cmds|
      invariant 0 <= i <= |cmds|
      invariant issued == cmds[..i]
      invariant forall j | 0 <= j < i :: starts(cmds[j])
      invariant Attempted(cmds, starts) == issued + Attempted(cmds[i..], starts)
    {
      AttemptedStep(cmds[i..], starts);
      assert cmds[i..][0] == cmds[i] && cmds[i..][1..] == cmds[i + 1..];
      AppendAssoc(issued, [cmds[i]], Attempted(cmds[i + 1..], starts));
      assert cmds[..i + 1] == issued + [cmds[i]];
      issued := issued + [cmds[i]];
      if !starts(cmds[i]) {
        return issued, false;
      }
      i := i + 1;
    }
    assert cmds[..i] == cmds && cmds[i..] == [];
    assert issued + [] == issued;
    ok := true;
  }

  /** What is attempted is always a prefix of the command list. */
  lemma {:induction false} AttemptedIsPrefix(cmds: seq<Argv>, starts: Argv -> bool)
    ensures Attempted(cmds, starts) == cmds[..|Attempted(cmds, starts)|]
  {
    if cmds != [] && starts(cmds[0]) {
      AttemptedIsPrefix(cmds[1..], starts);
      var r' := Attempted(cmds[1..], starts);
      assert cmds[..|r'| + 1] == [cmds[0]] + cmds[1..][..|r'|];
    }
  }

  /** All commands are attempted when all can be started; otherwise the
      attempts stop right after the first command that could not be. */
  lemma {:induction false} AttemptedStopsAtFailure(cmds: seq<Argv>, starts: Argv -> bool)
    ensures AllStart(cmds, starts) ==> Attempted(cmds, starts) == cmds
    ensures !AllStart(cmds, starts) ==>
              var r := Attempted(cmds, starts);
              r != [] && !starts(r[|r| - 1]) && AllStart(r[..|r| - 1], starts)
  {
    if cmds != [] && starts(cmds[0]) {
      AttemptedStopsAtFailure(cmds[1..], starts);
      var r := Attempted(cmds, starts);
      var r' := Attempted(cmds[1..], starts);
      assert r == [cmds[0]] + r';
      assert AllStart(cmds, starts) <==> AllStart(cmds[1..], starts) by {
        if AllStart(cmds[1..], starts) {
          forall i | 0 <= i < |cmds| ensures starts(cmds[i]) {
            if i > 0 { assert cmds[i] == cmds[1..][i - 1]; }
          }
        }
      }
      if !AllStart(cmds, starts) {
        assert r[|r| - 1] == r'[|r'| - 1];
        var p, p' := r[..|r| - 1], r'[..|r'| - 1];
        assert p == [cmds[0]] + p';
        forall i | 0 <= i < |p| ensures starts(p[i]) {
          if i > 0 { assert p[i] == p'[i - 1]; }
        }
      }
    }
  }

  lemma AttemptedStep(cmds: seq<Argv>, starts: Argv -> bool)
    requires cmds != []
    ensures !starts(cmds[0]) ==> Attempted(cmds, starts) == [cmds[0]] && !AllStart(cmds, starts)
    ensures starts(cmds[0]) ==> Attempted(cmds, starts) == [cmds[0]] + Attempted(cmds[1..], starts)
  {
  }

  /** Running a + b: all of a, then b's attempts, unless a already stopped. */
  lemma {:induction false} AttemptedAppend(a: seq<Argv>, b: seq<Argv>, starts: Argv -> bool)
    ensures AllStart(a, starts) ==> Attempted(a + b, starts) == a + Attempted(b, starts)
    ensures !AllStart(a, starts) ==> Attempted(a + b, starts) == Attempted(a, starts)
  {
    if a == [] {
      assert a + b == b;
    } else {
      assert (a + b)[0] == a[0];
      assert (a + b)[1..] == a[1..] + b;
      AttemptedAppend(a[1..], b, starts);
      if starts(a[0]) {
        assert AllStart(a, starts) <==> AllStart(a[1..], starts);
      }
    }
  }
}
