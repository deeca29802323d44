/** The few pieces of Python's str behaviour the script relies on:
    `splitlines`, `strip` (as a blank-line test), `split()[0]`, the `in`
    substring test, `"\n".join` and `lower`. */
module Text {

  /** Python's whitespace (str.isspace, also what split() and strip() use). */
  predicate IsSpace(c: char) {
    var n := c as int;
    n == 0x20 || 0x09 <= n <= 0x0D || 0x1C <= n <= 0x1F || n == 0x85 || n == 0xA0
    || n == 0x1680 || 0x2000 <= n <= 0x200A || n == 0x2028 || n == 0x2029
    || n == 0x202F || n == 0x205F || n == 0x3000
  }

  /** The characters str.splitlines breaks at ("\r\n" counts as one break). */
  predicate IsLineBreak(c: char) {
    var n := c as int;
    0x0A <= n <= 0x0D || 0x1C <= n <= 0x1E || n == 0x85 || n == 0x2028 || n == 0x2029
  }

  predicate NoBreak(s: string) {
    forall i :: 0 <= i < |s| ==> !IsLineBreak(s[i])
  }

  predicate NoSpace(s: string) {
    forall i :: 0 <= i < |s| ==> !IsSpace(s[i])
  }

  /** The string is empty or whitespace only (stripping leaves nothing). */
  predicate IsBlank(s: string) {
    forall i :: 0 <= i < |s| ==> IsSpace(s[i])
  }

  /** Index of the first line break of `s`, or |s| when there is none. */
  function FirstBreak(s: string): (k: nat)
    ensures k <= |s|
    ensures NoBreak(s[..k])
    ensures k < |s| ==> IsLineBreak(s[k])
  {
    if s == [] then 0
    else if IsLineBreak(s[0]) then 0
    else 1 + FirstBreak(s[1..])
  }

  /** Width of the break at k: two for "\r\n", one otherwise. */
  function BreakWidth(s: string, k: nat): (w: nat)
    requires k < |s|
    ensures 1 <= w && k + w <= |s|
  {
    if s[k] == '\r' && k + 1 < |s| && s[k + 1] == '\n' then 2 else 1
  }

  /** str.splitlines(): no trailing empty line, and "" has no lines. */
  function Lines(s: string): (ls: seq<string>)
    ensures forall l | l in ls :: NoBreak(l)
    decreases |s|
  {
    if s == [] then []
    else
      var k := FirstBreak(s);
      if k == |s| then [s]
      else [s[..k]] + Lines(s[k + BreakWidth(s, k)..])
  }

  /** The lines that are not blank, in order. */
  function NonBlank(ls: seq<string>): seq<string> {
    if ls == [] then []
    else (if IsBlank(ls[0]) then [] else [ls[0]]) + NonBlank(ls[1..])
  }

  /** The lines joined with a newline between each two. */
  function JoinLines(ls: seq<string>): string {
    if ls == [] then ""
    else if |ls| == 1 then ls[0]
    else ls[0] + "\n" + JoinLines(ls[1..])
  }

  /** The substring test: `needle` occurs somewhere in `s`. */
  predicate Contains(s: string, needle: string) {
    needle <= s || (s != [] && Contains(s[1..], needle))
  }

  function TrimStart(s: string): string {
    if s != [] && IsSpace(s[0]) then TrimStart(s[1..]) else s
  }

  function TakeToken(s: string): string {
    if s == [] || IsSpace(s[0]) then [] else [s[0]] + TakeToken(s[1..])
  }

  /** The first whitespace-separated token, or "" when there is none (where
      Python's split would leave nothing to index). */
  function FirstToken(s: string): string {
    TakeToken(TrimStart(s))
  }

  /** str.lower() on ASCII letters. */
  function Lower(s: string): (r: string)
    ensures |r| == |s|
    ensures forall i | 0 <= i < |s| ::
              && !('A' <= r[i] <= 'Z')
              && (if 'A' <= s[i] <= 'Z' then r[i] as int == s[i] as int + 32 else r[i] == s[i])
  {
    if s == [] then []
    else [if 'A' <= s[0] <= 'Z' then (s[0] as int + 32) as char else s[0]] + Lower(s[1..])
  }

  /** A corollary of the contract of `Lower`: lower-casing twice is
      lower-casing once, and the result has no upper-case
      ASCII letter left. */
  lemma LowerIdempotent(s: string)
    ensures Lower(Lower(s)) == Lower(s)
    ensures forall i | 0 <= i < |s| :: !('A' <= Lower(s)[i] <= 'Z')
  {
  }

  lemma NonBlankMembers(ls: seq<string>)
    ensures forall l | l in NonBlank(ls) :: l in ls && !IsBlank(l)
  {
    if ls != [] {
      NonBlankMembers(ls[1..]);
    }
  }

  lemma NonBlankAppend(a: seq<string>, b: seq<string>)
    ensures NonBlank(a + b) == NonBlank(a) + NonBlank(b)
  {
    if a != [] {
      assert (a + b)[1..] == a[1..] + b;
      NonBlankAppend(a[1..], b);
    } else {
      assert a + b == b;
    }
  }

  /** Splitting the joined lines gives them back, when no line is empty or holds
      a break of its own. */
  lemma {:induction false} LinesOfJoin(ls: seq<string>)
    requires forall l | l in ls :: l != [] && NoBreak(l)
    ensures Lines(JoinLines(ls)) == ls
  {
    if |ls| == 1 {
      var s := ls[0];
      assert s[..|s|] == s;
      FirstBreakOfNoBreak(s);
    } else if |ls| > 1 {
      var s := JoinLines(ls);
      var rest := JoinLines(ls[1..]);
      assert s == ls[0] + ("\n" + rest);
      FirstBreakAt(ls[0], "\n" + rest);
      assert s[|ls[0]|] == '\n';
      assert s[..|ls[0]|] == ls[0];
      assert s[|ls[0]| + 1..] == rest;
      assert forall l | l in ls[1..] :: l in ls;
      LinesOfJoin(ls[1..]);
    }
  }

  lemma FirstBreakOfNoBreak(s: string)
    requires NoBreak(s)
    ensures FirstBreak(s) == |s|
  {
    if s != [] {
      assert NoBreak(s[1..]) by {
        forall i | 0 <= i < |s[1..]| ensures !IsLineBreak(s[1..][i]) {
          assert s[1..][i] == s[i + 1];
        }
      }
      FirstBreakOfNoBreak(s[1..]);
    }
  }

  /** The first break of a + b is found after a when a has none and b
      starts with one. */
  lemma FirstBreakAt(a: string, b: string)
    requires NoBreak(a) && b != [] && IsLineBreak(b[0])
    ensures FirstBreak(a + b) == |a|
  {
    if a != [] {
      assert (a + b)[1..] == a[1..] + b;
      assert NoBreak(a[1..]) by {
        forall i | 0 <= i < |a[1..]| ensures !IsLineBreak(a[1..][i]) {
          assert a[1..][i] == a[i + 1];
        }
      }
      FirstBreakAt(a[1..], b);
    } else {
      assert a + b == b;
    }
  }
}
