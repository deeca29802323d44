/** `get_connected_monitors`, the same list comprehension in both variants:
    the first whitespace-separated token of every line of `xrandr`'s
    standard output that contains " connected". Running xrandr is outside
    the model; its output is a parameter. */
module Monitors {
  import opened Text

  const ConnectedMarker: string := " connected"

  /** The first token of every line that holds " connected", in order. */
  function MonitorsOf(lines: seq<string>): (ms: seq<string>)
    ensures |ms| <= |lines|
    ensures forall m | m in ms :: m != [] && NoSpace(m)
  {
    if lines == [] then []
    else
      var rest := MonitorsOf(lines[1..]);
      if Contains(lines[0], ConnectedMarker) then
        ConnectedLineHasToken(lines[0]);
        [FirstToken(lines[0])] + rest
      else rest
  }

  /** get_connected_monitors, given xrandr's standard output. */
  function ConnectedMonitors(stdout: string): (ms: seq<string>)
    ensures forall m | m in ms :: m != [] && NoSpace(m)
  {
    MonitorsOf(Lines(stdout))
  }

  /** Line order is kept: the monitors of a listing are those of its first
      part followed by those of the rest. */
  lemma {:induction false} MonitorsOfAppend(a: seq<string>, b: seq<string>)
    ensures MonitorsOf(a + b) == MonitorsOf(a) + MonitorsOf(b)
  {
    if a == [] {
      assert a + b == b;
    } else {
      assert (a + b)[1..] == a[1..] + b;
      MonitorsOfAppend(a[1..], b);
    }
  }

  /** A line "<name> connected ..." yields exactly <name>. */
  lemma ConnectedLine(name: string, tail: string)
    requires name != [] && NoSpace(name)
    ensures MonitorsOf([name + ConnectedMarker + tail]) == [name]
  {
    var line := name + ConnectedMarker + tail;
    ContainsInfix(name, ConnectedMarker, tail);
    assert line == name + " " + ("connected" + tail);
    TokenBeforeSpace(name, "connected" + tail);
    assert TrimStart(line) == line;
    assert [line][1..] == [];
  }

  /** A line "<name> disconnected ..." yields nothing, provided the rest of
      the line does not itself contain " connected". */
  lemma DisconnectedLine(name: string, tail: string)
    requires NoSpace(name) && !Contains(tail, ConnectedMarker)
    ensures MonitorsOf([name + " disconnected" + tail]) == []
  {
    assert NoSpace("disconnected");
    assert name + " disconnected" + tail == name + " " + "disconnected" + tail;
    OtherStatusLine(name, "disconnected", tail);
  }

  /** More generally, a line "<name> <word>..." whose status word does not
      start with 'c' yields nothing unless the rest holds " connected". */
  lemma OtherStatusLine(name: string, word: string, tail: string)
    requires NoSpace(name) && NoSpace(word) && word != [] && word[0] != 'c'
    requires !Contains(tail, ConnectedMarker)
    ensures MonitorsOf([name + " " + word + tail]) == []
  {
    var rest := " " + (word + tail);
    assert name + " " + word + tail == name + rest;
    SkipNoSpace(name, rest);
    NotMarkerStart(rest);
    assert rest[1..] == word + tail;
    SkipNoSpace(word, tail);
    assert [name + rest][1..] == [];
  }

  /** " x..." with x other than 'c' is not the start of " connected". */
  lemma NotMarkerStart(x: string)
    requires |x| >= 2 && x[1] != 'c'
    ensures Contains(x, ConnectedMarker) == Contains(x[1..], ConnectedMarker)
  {
    assert ConnectedMarker[1] == 'c';
  }

  /** An xrandr listing with a connected, a disconnected and a connected
      output gives the two connected names, in order. */
  lemma ListingOfThree(a: string, ta: string, b: string, tb: string, c: string, tc: string)
    requires a != [] && NoSpace(a) && c != [] && NoSpace(c)
    requires NoSpace(b) && !Contains(tb, ConnectedMarker)
    ensures MonitorsOf([a + ConnectedMarker + ta, b + " disconnected" + tb, c + ConnectedMarker + tc]) == [a, c]
  {
    var la, lb, lc := a + ConnectedMarker + ta, b + " disconnected" + tb, c + ConnectedMarker + tc;
    ConnectedLine(a, ta);
    DisconnectedLine(b, tb);
    ConnectedLine(c, tc);
    assert [la, lb, lc] == [la] + ([lb] + [lc]);
    MonitorsOfAppend([lb], [lc]);
    MonitorsOfAppend([la], [lb] + [lc]);
  }

  lemma ContainsInfix(x: string, needle: string, y: string)
    ensures Contains(x + needle + y, needle)
  {
    if x == [] {
      assert x + needle + y == needle + y;
      assert needle <= needle + y;
    } else {
      assert (x + needle + y)[1..] == x[1..] + needle + y;
      ContainsInfix(x[1..], needle, y);
    }
  }

  /** Characters that are not spaces cannot start " connected". */
  lemma SkipNoSpace(w: string, t: string)
    requires NoSpace(w)
    ensures Contains(w + t, ConnectedMarker) <==> Contains(t, ConnectedMarker)
  {
    if w == [] {
      assert w + t == t;
    } else {
      assert (w + t)[0] == w[0];
      assert !(ConnectedMarker <= w + t);
      assert (w + t)[1..] == w[1..] + t;
      assert NoSpace(w[1..]) by {
        forall i | 0 <= i < |w[1..]| ensures !IsSpace(w[1..][i]) {
          assert w[1..][i] == w[i + 1];
        }
      }
      SkipNoSpace(w[1..], t);
    }
  }

  lemma TokenBeforeSpace(name: string, t: string)
    requires NoSpace(name)
    ensures TakeToken(name + " " + t) == name
  {
    if name == [] {
      assert name + " " + t == " " + t;
    } else {
      assert (name + " " + t)[1..] == name[1..] + " " + t;
      assert NoSpace(name[1..]) by {
        forall i | 0 <= i < |name[1..]| ensures !IsSpace(name[1..][i]) {
          assert name[1..][i] == name[i + 1];
        }
      }
      TokenBeforeSpace(name[1..], t);
    }
  }

  /** A line holding " connected" is not blank, so `split()[0]` exists, and
      it has no whitespace. */
  lemma ConnectedLineHasToken(line: string)
    requires Contains(line, ConnectedMarker)
    ensures FirstToken(line) != [] && NoSpace(FirstToken(line))
  {
    ContainsMarkerNotBlank(line);
    TrimStartNotBlank(line);
    TakeTokenNoSpace(TrimStart(line));
  }

  lemma ContainsMarkerNotBlank(line: string)
    requires Contains(line, ConnectedMarker)
    ensures !IsBlank(line)
  {
    if ConnectedMarker <= line {
      assert line[1] == 'c';
    } else {
      ContainsMarkerNotBlank(line[1..]);
      var i :| 0 <= i < |line[1..]| && !IsSpace(line[1..][i]);
      assert line[i + 1] == line[1..][i];
    }
  }

  lemma TrimStartNotBlank(s: string)
    requires !IsBlank(s)
    ensures TrimStart(s) != [] && !IsSpace(TrimStart(s)[0])
  {
    if IsSpace(s[0]) {
      var i :| 0 <= i < |s| && !IsSpace(s[i]);
      assert s[1..][i - 1] == s[i];
      TrimStartNotBlank(s[1..]);
    }
  }

  lemma TakeTokenNoSpace(s: string)
    ensures NoSpace(TakeToken(s))
    ensures s != [] && !IsSpace(s[0]) ==> TakeToken(s) != []
  {
    if s != [] && !IsSpace(s[0]) {
      TakeTokenNoSpace(s[1..]);
      var r := TakeToken(s[1..]);
      assert TakeToken(s) == [s[0]] + r;
      forall i | 0 <= i < |[s[0]] + r| ensures !IsSpace(([s[0]] + r)[i]) {
        if i > 0 { assert ([s[0]] + r)[i] == r[i - 1]; }
      }
    }
  }
}
