// What a terminal read makes of the characters that are typed
// (kernel/tty.c:51-83).
module LineDiscipline {
  const BACKSPACE := 8 as char
  const NEWLINE := '\n'

  predicate Printable(c: char) { ' ' <= c <= '~' }

  // A read in progress: left characters are still wanted, held are in the
  // buffer of the process; resumes are the counts of the RESUME_PROC messages.
  datatype Line = Line(left: nat, held: seq<char>, resumes: seq<nat>)

  // kernel/tty.c:60-71
  function Put(l: Line, c: char): Line
    requires l.left > 0
  {
    if Printable(c) then l.(left := l.left - 1, held := l.held + [c])
    else if c == BACKSPACE && l.held != [] then l.(left := l.left + 1, held := l.held[..|l.held| - 1])
    else l
  }

  // kernel/tty.c:59-81, for one character
  function Step(l: Line, c: char): Line {
    if l.left == 0 then l
    else
      var l1 := Put(l, c);
      if c == NEWLINE || l1.left == 0 then Line(0, l1.held, l1.resumes + [|l1.held|]) else l1
  }

  function Run(l: Line, s: seq<char>): Line {
    if s == [] then l else Step(Run(l, s[..|s| - 1]), s[|s| - 1])
  }

  // A read of n characters begins (kernel/tty.c:105-106).
  function Begin(n: nat): Line { Line(n, [], []) }

  // ---------------------------------------------------- what a reader expects

  // The text that is left when every backspace has taken a character away.
  function Edit(s: seq<char>): (t: seq<char>)
    ensures |t| <= |s|
  {
    if s == [] then []
    else
      var t, c := Edit(s[..|s| - 1]), s[|s| - 1];
      if Printable(c) then t + [c] else if c == BACKSPACE && t != [] then t[..|t| - 1] else t
  }

  // The read of n characters is over with the last character of s.
  predicate Ends(s: seq<char>, n: nat) {
    s != [] && (s[|s| - 1] == NEWLINE || |Edit(s)| == n)
  }

  // How many characters the read takes; all of them if it does not end.
  function Consumed(s: seq<char>, n: nat): (k: nat)
    ensures k <= |s|
    ensures forall j :: 0 <= j < k ==> !Ends(s[..j], n)
    ensures k == |s| || Ends(s[..k], n)
  {
    if s == [] then 0
    else
      var k := Consumed(s[..|s| - 1], n);
      assert forall j :: 0 <= j <= |s| - 1 ==> s[..|s| - 1][..j] == s[..j];
      if k < |s| - 1 || Ends(s[..k], n) then k else |s|
  }

  lemma {:induction false} RunPrefix(l: Line, s: seq<char>, t: seq<char>)
    ensures Run(l, s + t) == Run(Run(l, s), t)
    decreases |t|
  {
    if t == [] {
      assert s + t == s;
    } else {
      var front := t[..|t| - 1];
      RunPrefix(l, s, front);
      assert (s + t)[..|s + t| - 1] == s + front;
    }
  }

  // While it does not end, the buffer holds the edited text, and what is held
  // and what is wanted add up to n.
  lemma {:induction false} WhileReading(s: seq<char>, n: nat)
    requires n > 0 && forall j :: 0 <= j <= |s| ==> !Ends(s[..j], n)
    ensures |Edit(s)| < n && Run(Begin(n), s) == Line(n - |Edit(s)|, Edit(s), [])
  {
    if s != [] {
      var front, c := s[..|s| - 1], s[|s| - 1];
      assert forall j :: 0 <= j <= |front| ==> front[..j] == s[..j];
      WhileReading(front, n);
      assert s[..|s|] == s;
      assert Edit(s) == Put(Run(Begin(n), front), c).held;
    }
  }

  lemma {:induction false} AfterTheEnd(l: Line, s: seq<char>)
    requires l.left == 0
    ensures Run(l, s) == l
  {
    if s != [] { AfterTheEnd(l, s[..|s| - 1]); }
  }

  lemma LastCharacter(s: seq<char>, n: nat)
    requires n > 0 && Ends(s, n) && forall j :: 0 <= j < |s| ==> !Ends(s[..j], n)
    ensures Run(Begin(n), s) == Line(0, Edit(s), [|Edit(s)|])
  {
    var front, c := s[..|s| - 1], s[|s| - 1];
    assert forall j :: 0 <= j <= |front| ==> front[..j] == s[..j];
    WhileReading(front, n);
    var l := Line(n - |Edit(front)|, Edit(front), []);
    assert Put(l, c).held == Edit(s) && Put(l, c).left + |Edit(s)| == n;
  }

  // A read of n > 0 characters: the buffer of the process holds the edit of
  // the characters up to the newline, or up to the n-th that stays; it is
  // resumed exactly once, then; what is typed after that changes nothing.
  lemma ReadReturnsTheEditedLine(s: seq<char>, n: nat)
    requires n > 0
    ensures
      var k := Consumed(s, n);
      var l, t := Run(Begin(n), s), Edit(s[..k]);
      && l.held == t
      && (if Ends(s[..k], n) then l.left == 0 && l.resumes == [|t|]
          else l.left + |t| == n && l.left > 0 && l.resumes == [])
  {
    var k := Consumed(s, n);
    var taken := s[..k];
    if Ends(taken, n) {
      assert forall j :: 0 <= j < k ==> taken[..j] == s[..j];
      assert taken + s[k..] == s;
      FinishedRead(taken, s[k..], n);
    } else {
      assert taken == s;
      WhileReading(s, n);
    }
  }

  lemma FinishedRead(taken: seq<char>, rest: seq<char>, n: nat)
    requires n > 0 && Ends(taken, n) && forall j :: 0 <= j < |taken| ==> !Ends(taken[..j], n)
    ensures Run(Begin(n), taken + rest) == Line(0, Edit(taken), [|Edit(taken)|])
  {
    LastCharacter(taken, n);
    RunPrefix(Begin(n), taken, rest);
    AfterTheEnd(Run(Begin(n), taken), rest);
  }

  // Plain text stays as it is typed, and nothing but plain text stays.
  lemma {:induction false} PlainTextStays(s: seq<char>)
    requires forall i :: 0 <= i < |s| ==> 32 <= s[i] as int <= 126
    ensures Edit(s) == s
    decreases |s|
  {
    if s != [] {
      PlainTextStays(s[..|s| - 1]);
      assert s == s[..|s| - 1] + [s[|s| - 1]];
    }
  }

  lemma {:induction false} OnlyPlainTextStays(s: seq<char>, i: nat)
    requires i < |Edit(s)|
    ensures 32 <= Edit(s)[i] as int <= 126
    decreases |s|
  {
    if s != [] {
      var t := Edit(s[..|s| - 1]);
      if i < |t| { OnlyPlainTextStays(s[..|s| - 1], i); }
    }
  }

  // A line of plain text and a newline (character 10) come back as the text.
  lemma LineOfText(s: seq<char>, n: nat)
    requires |s| < n && forall i :: 0 <= i < |s| ==> 32 <= s[i] as int <= 126
    ensures Run(Begin(n), s + [10 as char]) == Line(0, s, [|s|])
  {
    var line := s + [10 as char];
    assert line[..|s|] == s;
    forall j | 0 <= j < |line| ensures !Ends(line[..j], n) {
      assert line[..j] == s[..j];
      PlainTextStays(s[..j]);
    }
    PlainTextStays(s);
    assert Edit(line) == s;
    LastCharacter(line, n);
  }

  // Other control characters might as well not have been typed.
  lemma {:induction false} ControlIsIgnored(a: seq<char>, c: char, b: seq<char>)
    requires (c as int < 32 || c as int > 126) && c as int != 8
    ensures Edit(a + [c] + b) == Edit(a + b)
    decreases |b|
  {
    var s, t := a + [c] + b, a + b;
    if b == [] {
      assert s[..|s| - 1] == a && t == a;
    } else {
      var front := b[..|b| - 1];
      assert s[..|s| - 1] == a + [c] + front && t[..|t| - 1] == a + front;
      ControlIsIgnored(a, c, front);
    }
  }

  // A character that is taken back might as well not have been typed.
  lemma {:induction false} BackspaceTakesBack(a: seq<char>, c: char, b: seq<char>)
    requires 32 <= c as int <= 126
    ensures BACKSPACE as int == 8 && Edit(a + [c, BACKSPACE] + b) == Edit(a + b)
    decreases |b|
  {
    var s, t := a + [c, BACKSPACE] + b, a + b;
    if b == [] {
      assert s[..|s| - 1] == a + [c] && (a + [c])[..|a|] == a && t == a;
      assert Edit(a + [c]) == Edit(a) + [c];
    } else {
      var front := b[..|b| - 1];
      assert s[..|s| - 1] == a + [c, BACKSPACE] + front && t[..|t| - 1] == a + front;
      BackspaceTakesBack(a, c, front);
    }
  }
}
