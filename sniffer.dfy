/** The separator sniffer (`detectSep`): the most frequent character of the
    CSV text's first row once letters, digits, quotes, periods and
    underscores are removed; on a tie, the character that reached the
    winning count first. */
module Sniffer {
  import opened JsStrings

  /** The characters that `/([A-Z]|[0-9]|\"|\'|\.|_)/ig` removes. With the
      `i` flag the letter class matches both cases of the ASCII letters only. */
  predicate IsPlain(c: char) {
    || ('A' <= c <= 'Z')
    || ('a' <= c <= 'z')
    || ('0' <= c <= '9')
    || c == '"' || c == '\'' || c == '.' || c == '_'
  }

  function Count(s: string, c: char): nat {
    multiset(s)[c]
  }

  /** The first row with the plain characters replaced by nothing. */
  function StripPlain(s: string): (r: string)
    ensures forall i :: 0 <= i < |r| ==> !IsPlain(r[i])
  {
    if s == [] then []
    else (if IsPlain(s[0]) then [] else [s[0]]) + StripPlain(s[1..])
  }

  /** Stripping keeps every other character as often as the row has it. */
  lemma {:induction false} StripPlainCounts(s: string, c: char)
    requires !IsPlain(c)
    ensures Count(StripPlain(s), c) == Count(s, c)
    decreases |s|
  {
    if s != [] {
      StripPlainCounts(s[1..], c);
      assert s == [s[0]] + s[1..];
    }
  }

  /** Stripping works character by character, so it keeps the order of
      the characters it keeps: the strip of a concatenation is the
      concatenation of the strips. */
  lemma {:induction false} StripPlainAppend(a: string, b: string)
    ensures StripPlain(a + b) == StripPlain(a) + StripPlain(b)
    decreases |a|
  {
    if a != [] {
      StripPlainAppend(a[1..], b);
      assert (a + b)[1..] == a[1..] + b;
    } else {
      assert a + b == b;
    }
  }

  /** The strip of a prefix of the row is a prefix of the strip of the row. */
  lemma StrippedPrefix(s: string, j: nat)
    requires j <= |s|
    ensures |StripPlain(s[..j])| <= |StripPlain(s)|
    ensures StripPlain(s[..j]) == StripPlain(s)[..|StripPlain(s[..j])|]
  {
    assert s == s[..j] + s[j..];
    StripPlainAppend(s[..j], s[j..]);
  }

  /** The value of `maxChar` after the counting loop has run over `s`:
      empty before the first character; afterwards the current character
      whenever its count now strictly exceeds the leader's. */
  function Leader(s: string): (r: string)
    ensures |r| <= 1
    ensures r == [] <==> s == []
    ensures r != [] ==> r[0] in s
    decreases |s|
  {
    if s == [] then []
    else
      var c := s[|s| - 1];
      var m := Leader(s[..|s| - 1]);
      assert s == s[..|s| - 1] + [c];
      if m == [] || Count(s, c) > Count(s, m[0]) then [c] else m
  }

  /** `m` is a separator the sniffer may report for the stripped row `s`:
      it occurs in `s`, no character occurs more often, and at every prefix
      of `s` where some character has reached `m`'s final count, `m` has
      reached it too (first to reach the maximum wins a tie). */
  ghost predicate IsSeparatorOf(s: string, m: char) {
    && m in s
    && (forall c :: Count(s, c) <= Count(s, m))
    && (forall j, c :: 0 <= j <= |s| && Count(s[..j], c) >= Count(s, m) ==> Count(s[..j], m) >= Count(s, m))
  }

  lemma PrefixCount(s: string, j: nat, c: char)
    requires j <= |s|
    ensures Count(s[..j], c) <= Count(s, c)
  {
    assert s == s[..j] + s[j..];
  }

  lemma CountAppend(t: string, x: char, c: char)
    ensures Count(t + [x], c) == Count(t, c) + (if c == x then 1 else 0)
  {
  }

  /** A step of the loop that keeps the leader `l` keeps it a separator. */
  lemma KeepLeader(t: string, x: char, l: char)
    requires IsSeparatorOf(t, l)
    requires Count(t + [x], x) <= Count(t + [x], l)
    ensures IsSeparatorOf(t + [x], l)
  {
    var s := t + [x];
    var top := Count(t, l);
    forall c ensures Count(s, c) <= Count(s, l) {
      CountAppend(t, x, c);
      CountAppend(t, x, l);
    }
    CountAppend(t, x, l);
    forall j, c | 0 <= j <= |s| && Count(s[..j], c) >= Count(s, l)
      ensures Count(s[..j], l) >= Count(s, l)
    {
      if j == |s| {
        assert s[..j] == s;
      } else {
        assert s[..j] == t[..j];
        PrefixCount(t, j, c);
      }
    }
  }

  /** A step of the loop whose character overtakes the leader `l` makes
      that character the separator. */
  lemma NewLeader(t: string, x: char, l: char)
    requires IsSeparatorOf(t, l)
    requires Count(t + [x], x) > Count(t + [x], l)
    ensures IsSeparatorOf(t + [x], x)
  {
    var s := t + [x];
    var top := Count(t, l);
    CountAppend(t, x, x);
    CountAppend(t, x, l);
    assert Count(s, x) == top + 1;
    forall c ensures Count(s, c) <= Count(s, x) {
      CountAppend(t, x, c);
    }
    forall j, c | 0 <= j <= |s| && Count(s[..j], c) >= Count(s, x)
      ensures Count(s[..j], x) >= Count(s, x)
    {
      if j == |s| {
        assert s[..j] == s;
      } else {
        assert s[..j] == t[..j];
        PrefixCount(t, j, c);
      }
    }
  }

  /** The loop's leader has the maximal count and was first to reach it. */
  lemma {:induction false} LeaderIsSeparator(s: string)
    requires s != []
    ensures IsSeparatorOf(s, Leader(s)[0])
    decreases |s|
  {
    var t, x := s[..|s| - 1], s[|s| - 1];
    assert s == t + [x];
    if t == [] {
      forall j, c | 0 <= j <= |s| && Count(s[..j], c) >= Count(s, x)
        ensures Count(s[..j], x) >= Count(s, x)
      {
        if j == |s| { assert s[..j] == s; }
      }
    } else {
      LeaderIsSeparator(t);
      var l := Leader(t)[0];
      if Count(s, x) > Count(s, l) {
        NewLeader(t, x, l);
      } else {
        KeepLeader(t, x, l);
      }
    }
  }

  /** At most one character satisfies `IsSeparatorOf`, so the sniffer's
      answer is determined by that predicate alone. */
  lemma SeparatorUnique(s: string, a: char, b: char)
    requires IsSeparatorOf(s, a) && IsSeparatorOf(s, b)
    ensures a == b
  {
    var top := Count(s, a);
    assert top == Count(s, b);
    assert top >= 1;
    // Walk back to the shortest prefix where `a` has reached its count.
    var j := |s|;
    assert s[..j] == s;
    while j > 0 && Count(s[..j - 1], a) >= top
      invariant 0 <= j <= |s|
      invariant Count(s[..j], a) >= top
    {
      j := j - 1;
    }
    assert j > 0;
    assert s[..j] == s[..j - 1] + [s[j - 1]];
    assert s[j - 1] == a;
    assert Count(s[..j], b) >= top;
    assert Count(s[..j - 1], b) < top;
    assert s[j - 1] == b;
  }

  /** The `charCounts` object after the counting loop has run over `t`: a
      character's entry is created at 0 when it is first met, and is then
      incremented once per occurrence. */
  function CountMap(t: string): map<char, nat>
    decreases |t|
  {
    if t == [] then map[]
    else
      var before, x := CountMap(t[..|t| - 1]), t[|t| - 1];
      var seen := if x in before then before else before[x := 0];
      seen[x := seen[x] + 1]
  }

  /** The map has an entry exactly for the characters of `t`, and each
      entry is that character's count. */
  lemma {:induction false} CountMapCounts(t: string)
    ensures forall c :: c in CountMap(t) <==> c in t
    ensures forall c :: c in CountMap(t) ==> CountMap(t)[c] == Count(t, c)
    decreases |t|
  {
    if t != [] {
      var p, x := t[..|t| - 1], t[|t| - 1];
      CountMapCounts(p);
      assert t == p + [x];
      forall c ensures Count(t, c) == Count(p, c) + (if c == x then 1 else 0) {
        CountAppend(p, x, c);
      }
    }
  }

  /** The leader after one more character, in terms of the counts. */
  lemma LeaderAppend(t: string, x: char)
    ensures var m := Leader(t);
      Leader(t + [x]) == if m == [] || Count(t + [x], x) > Count(t + [x], m[0]) then [x] else m
  {
    assert (t + [x])[..|t|] == t;
  }

  /** One pass of the counting loop at position `i`: from the map and the
      leader of `row[..i]`, the loop's update of the map gives the map of
      `row[..i + 1]`, and comparing its entries gives the leader of
      `row[..i + 1]`. */
  lemma LoopStep(row: string, i: nat, counted: map<char, nat>, leader: string,
                 next: map<char, nat>, newLeader: string)
    requires i < |row|
    requires counted == CountMap(row[..i]) && leader == Leader(row[..i])
    requires leader != [] ==> leader[0] in counted
    requires var seen := if row[i] in counted then counted else counted[row[i] := 0];
      next == seen[row[i] := seen[row[i]] + 1]
    requires newLeader == if leader == [] || next[row[i]] > next[leader[0]] then [row[i]] else leader
    ensures next == CountMap(row[..i + 1]) && newLeader == Leader(row[..i + 1])
    ensures newLeader != [] ==> newLeader[0] in next
  {
    var t, x := row[..i], row[i];
    assert row[..i + 1] == t + [x];
    assert (t + [x])[..|t|] == t;
    CountMapCounts(t + [x]);
    LeaderAppend(t, x);
  }

  /** The counting loop of `detectSep`: a count per character and the
      running `maxChar`, replaced only when the current character's count
      strictly exceeds the leader's. */
  method MostFrequent(row: string) returns (maxChar: string)
    ensures maxChar == Leader(row)
    ensures maxChar == [] <==> row == []
  {
    var charCounts: map<char, nat> := map[];
    maxChar := "";
    for i := 0 to |row|
      invariant maxChar == Leader(row[..i])
      invariant charCounts == CountMap(row[..i])
      invariant maxChar != [] ==> maxChar[0] in charCounts
    {
      ghost var counted, leader := charCounts, maxChar;
      var ch := row[i];
      if ch !in charCounts {
        charCounts := charCounts[ch := 0];
      }
      charCounts := charCounts[ch := charCounts[ch] + 1];
      if maxChar == "" || charCounts[ch] > charCounts[maxChar[0]] {
        maxChar := [ch];
      }
      LoopStep(row, i, counted, leader, charCounts, maxChar);
    }
    assert row[..|row|] == row;
  }

  /** The separator `detectSep` writes for CSV text `data`. */
  function Sniff(data: string): string {
    Leader(StripPlain(FirstLine(data)))
  }

  /** Stripping leaves nothing exactly when every character is plain. */
  lemma {:induction false} StripPlainEmptyIff(s: string)
    ensures StripPlain(s) == [] <==> forall i :: 0 <= i < |s| ==> IsPlain(s[i])
    decreases |s|
  {
    if s != [] {
      StripPlainEmptyIff(s[1..]);
      assert forall i :: 1 <= i < |s| ==> s[i] == s[1..][i - 1];
    }
  }

  /** Nothing is sniffed exactly when the first row holds plain characters only. */
  lemma SniffEmptyIff(data: string)
    ensures Sniff(data) == [] <==> forall i :: 0 <= i < |FirstLine(data)| ==> IsPlain(FirstLine(data)[i])
  {
    var line := FirstLine(data);
    StripPlainEmptyIff(line);
    if Sniff(data) == [] {
      forall i | 0 <= i < |line| ensures IsPlain(line[i]) {}
    } else {
      assert Leader(StripPlain(line)) != [];
      assert StripPlain(line) != [];
      var i :| 0 <= i < |line| && !IsPlain(line[i]);
      assert !IsPlain(FirstLine(data)[i]);
    }
  }

  /** Only the text before the first CR or LF is examined. */
  lemma SniffFirstLineOnly(line: string, brk: char, rest: string)
    requires forall i :: 0 <= i < |line| ==> !IsLineBreak(line[i])
    requires IsLineBreak(brk)
    ensures Sniff(line + [brk] + rest) == Sniff(line)
  {
    assert line + [brk] + rest == line + ([brk] + rest);
    FirstLineOf(line, [brk] + rest);
    assert line + [] == line;
    FirstLineOf(line, []);
  }

  /** A sniffed separator is a non-plain character of the first row that
      occurs there at least as often as any other non-plain character, and
      it is the one the tie-break rule selects on the stripped row. */
  lemma SniffIsMostFrequent(data: string)
    requires Sniff(data) != []
    ensures var m, line := Sniff(data)[0], FirstLine(data);
      && !IsPlain(m)
      && m in line
      && (forall c :: !IsPlain(c) ==> Count(line, c) <= Count(line, m))
      && IsSeparatorOf(StripPlain(line), m)
    ensures var m, line := Sniff(data)[0], FirstLine(data);
      forall j, c :: 0 <= j <= |line| && !IsPlain(c) && Count(line[..j], c) >= Count(line, m)
        ==> Count(line[..j], m) >= Count(line, m)
  {
    var line := FirstLine(data);
    var r := StripPlain(line);
    LeaderIsSeparator(r);
    var m := Leader(r)[0];
    assert !IsPlain(m) by {
      var k :| 0 <= k < |r| && r[k] == m;
    }
    StripPlainCounts(line, m);
    forall c | !IsPlain(c) ensures Count(line, c) <= Count(line, m) {
      StripPlainCounts(line, c);
    }
    forall j, c | 0 <= j <= |line| && !IsPlain(c) && Count(line[..j], c) >= Count(line, m)
      ensures Count(line[..j], m) >= Count(line, m)
    {
      FirstRowTie(line, m, j, c);
    }
  }

  /** The tie rule on the stripped row carries over to the row itself:
      among the prefixes of the row, `m` reaches its count no later than
      any other non-plain character. */
  lemma FirstRowTie(line: string, m: char, j: nat, c: char)
    requires IsSeparatorOf(StripPlain(line), m) && !IsPlain(m) && !IsPlain(c)
    requires j <= |line| && Count(line[..j], c) >= Count(line, m)
    ensures Count(line[..j], m) >= Count(line, m)
  {
    var r := StripPlain(line);
    StrippedPrefix(line, j);
    var i := |StripPlain(line[..j])|;
    StripPlainCounts(line[..j], c);
    StripPlainCounts(line[..j], m);
    StripPlainCounts(line, m);
    assert Count(r[..i], c) >= Count(r, m);
  }

  lemma StripTieTail()
    ensures StripPlain("b;c") == ";"
  {
    assert "b;c"[1..] == ";c" && ";c"[1..] == "c" && "c"[1..] == "";
    assert StripPlain("c") == "";
    assert StripPlain(";c") == ";";
  }

  lemma StripTieRow()
    ensures StripPlain("a|b;c") == "|;"
  {
    assert "a|b;c"[1..] == "|b;c" && "|b;c"[1..] == "b;c";
    StripTieTail();
    assert StripPlain("|b;c") == "|;";
  }

  lemma LeaderTieRow()
    ensures Leader("|;") == "|"
  {
    assert "|;"[..1] == "|";
    assert Leader("|") == "|";
    assert Count("|;", '|') == 1 && Count("|;", ';') == 1;
  }

  /** On a tie the separator that got there first wins: `a|b;c` gives `|`. */
  lemma SniffTieExample()
    ensures Sniff("a|b;c") == "|"
  {
    FirstLineOf("a|b;c", []);
    assert "a|b;c" + [] == "a|b;c";
    StripTieRow();
    LeaderTieRow();
  }

  lemma StripMajorityTail()
    ensures StripPlain("c,d") == ","
  {
    assert "c,d"[1..] == ",d" && ",d"[1..] == "d" && "d"[1..] == "";
    assert StripPlain("d") == "";
    assert StripPlain(",d") == ",";
  }

  lemma StripMajorityMid()
    ensures StripPlain(",c,d") == ",,"
  {
    assert ",c,d"[1..] == "c,d" && "c,d"[1..] == ",d";
    StripMajorityTail();
    assert StripPlain("c,d") == ",";
  }

  lemma StripMajorityBody()
    ensures StripPlain("b,c,d") == ",,"
  {
    assert "b,c,d"[1..] == ",c,d";
    StripMajorityMid();
  }

  lemma StripMajorityRow()
    ensures StripPlain("a;b,c,d") == ";,,"
  {
    assert "a;b,c,d"[1..] == ";b,c,d" && ";b,c,d"[1..] == "b,c,d";
    StripMajorityBody();
    assert StripPlain(";b,c,d") == ";,,";
  }

  lemma LeaderMajorityRow()
    ensures Leader(";,,") == ","
  {
    assert ";,,"[..2] == ";,";
    assert ";,"[..1] == ";";
    assert Leader(";") == ";";
    assert Count(";,", ';') == 1 && Count(";,", ',') == 1;
    assert Leader(";,") == ";";
    assert Count(";,,", ',') == 2 && Count(";,,", ';') == 1;
  }

  /** A later character that overtakes the leader replaces it: in
      `a;b,c,d` the semicolon leads until the second comma. */
  lemma SniffMajorityExample()
    ensures Sniff("a;b,c,d") == ","
  {
    FirstLineOf("a;b,c,d", []);
    assert "a;b,c,d" + [] == "a;b,c,d";
    StripMajorityRow();
    LeaderMajorityRow();
  }

  /** `x;y` followed by a data row: the semicolon is the only candidate. */
  lemma SniffSemicolonExample()
    ensures Sniff("x;y\n1;2") == ";"
  {
    assert "x;y\n1;2" == "x;y" + "\n1;2";
    FirstLineOf("x;y", "\n1;2");
    StripSemicolonRow();
    assert Leader(";") == ";";
  }

  lemma StripSemicolonRow()
    ensures StripPlain("x;y") == ";"
  {
    assert "x;y"[1..] == ";y" && ";y"[1..] == "y" && "y"[1..] == "";
    assert StripPlain("y") == "";
    assert StripPlain(";y") == ";";
  }
}
