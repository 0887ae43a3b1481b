/** The JavaScript built-ins the page script relies on, stated as ECMAScript
    defines them for the values the script passes them: truthiness and
    string conversion of form values, the first row of `split(/\n|\r/)`,
    `String.prototype.split` with a string separator,
    `String.prototype.substring` and `String(n)` for a natural number.
    `Join` is not one of them: the script never joins; it is the reference
    form that the accumulate-and-cut loop of `getParams` is proved equal to,
    and the inverse that `split` is proved against.
    A string is a sequence of Unicode scalar values; the script itself works
    on UTF-16 code units, and README's "Left out" says where that differs. */
module JsStrings {

  /** A value the script reads from the form: a field's text, a radio's
      value, a flag, or `undefined` when no radio of a group is checked. */
  datatype JsVal = Undef | Str(s: string) | Bool(b: bool)

  /** ToBoolean: `undefined`, `false` and the empty string are falsy. */
  predicate Truthy(v: JsVal) {
    match v
    case Undef => false
    case Str(s) => s != ""
    case Bool(b) => b
  }

  /** ToString, as `+` applies it to the non-string operand of a concatenation. */
  function ToText(v: JsVal): string {
    match v
    case Undef => "undefined"
    case Str(s) => s
    case Bool(b) => if b then "true" else "false"
  }

  predicate IsLineBreak(c: char) {
    c == '\n' || c == '\r'
  }

  /** `s.split(/\n|\r/)[0]`: the text before the first CR or LF, the whole
      of `s` when it has neither. */
  function FirstLine(s: string): (r: string)
    ensures r <= s
    ensures forall i :: 0 <= i < |r| ==> !IsLineBreak(r[i])
    ensures |r| < |s| ==> IsLineBreak(s[|r|])
  {
    if s == [] || IsLineBreak(s[0]) then [] else [s[0]] + FirstLine(s[1..])
  }

  /** A text without line breaks, followed by a line break or by nothing,
      is the first line of the whole. */
  lemma {:induction false} FirstLineOf(line: string, tail: string)
    requires forall i :: 0 <= i < |line| ==> !IsLineBreak(line[i])
    requires tail == [] || IsLineBreak(tail[0])
    ensures FirstLine(line + tail) == line
    decreases |line|
  {
    if line != [] {
      assert (line + tail)[1..] == line[1..] + tail;
      FirstLineOf(line[1..], tail);
    } else {
      assert line + tail == tail;
    }
  }

  /** `sep` occurs in `s` starting at index `k`. */
  predicate OccursAt(s: string, sep: string, k: int) {
    0 <= k && k + |sep| <= |s| && s[k..k + |sep|] == sep
  }

  ghost predicate Contains(s: string, sep: string) {
    exists k :: OccursAt(s, sep, k)
  }

  /** StringIndexOf(s, sep, from): the least index at or after `from` where
      `sep` occurs, or -1 when there is none. */
  function IndexOf(s: string, sep: string, from: nat): (k: int)
    requires from <= |s|
    ensures k == -1 || (from <= k <= |s| && OccursAt(s, sep, k))
    ensures forall i :: from <= i && (k == -1 || i < k) ==> !OccursAt(s, sep, i)
    decreases |s| - from
  {
    if OccursAt(s, sep, from) then from
    else if from == |s| then -1
    else IndexOf(s, sep, from + 1)
  }

  /** `s.split(sep)` without a limit. An empty separator splits `s` into its
      single characters (so `"".split("")` is empty); otherwise the pieces
      are the text between non-overlapping occurrences of `sep`, found from
      the left, and an `s` without any occurrence is its own only piece
      (so `"".split(",")` is `[""]`). The contract pins the leftmost rule
      for the first piece; the later pieces follow from the recursion on
      the rest of the text, as `SplitFirstPiece` states. */
  function Split(s: string, sep: string): (r: seq<string>)
    ensures sep == [] ==> |r| == |s| && forall i :: 0 <= i < |s| ==> r[i] == [s[i]]
    ensures sep != [] ==> |r| >= 1 && forall i :: 0 <= i < |r| ==> !Contains(r[i], sep)
    ensures sep != [] && IndexOf(s, sep, 0) == -1 ==> r == [s]
    ensures sep != [] && IndexOf(s, sep, 0) != -1 ==> r[0] == s[..IndexOf(s, sep, 0)]
    decreases |s|
  {
    if sep == [] then seq(|s|, i requires 0 <= i < |s| => [s[i]])
    else
      var k := IndexOf(s, sep, 0);
      if k == -1 then [s]
      else
        assert !Contains(s[..k], sep) by {
          forall j | OccursAt(s[..k], sep, j) ensures false {
            assert s[..k][j..j + |sep|] == s[j..j + |sep|];
            assert OccursAt(s, sep, j);
          }
        }
        [s[..k]] + Split(s[k + |sep|..], sep)
  }

  /** The pieces `ps` with `sep` between each two neighbours, as
      `ps.join(sep)` would give them. The script does not call it; it is the
      reference form its query loop and `split` are proved against. */
  function Join(ps: seq<string>, sep: string): string {
    if |ps| == 0 then ""
    else if |ps| == 1 then ps[0]
    else ps[0] + sep + Join(ps[1..], sep)
  }

  /** Clamps a `substring` bound into `[0, len]`. */
  function Clamp(x: int, len: nat): nat {
    if x < 0 then 0 else if x > len then len else x
  }

  /** `s.substring(start, end)`: both bounds clamped to the string, and
      swapped when the first is the larger. */
  function Substring(s: string, start: int, end: int): string {
    var a, b := Clamp(start, |s|), Clamp(end, |s|);
    if a <= b then s[a..b] else s[b..a]
  }

  function DigitChar(d: nat): char
    requires d < 10
  {
    "0123456789"[d]
  }

  /** `String(n)`: the decimal digits of `n`, without leading zeros. */
  function NatToString(n: nat): (r: string)
    ensures 1 <= |r|
    ensures (n < 10) == (|r| == 1)
    decreases n
  {
    if n < 10 then [DigitChar(n)] else NatToString(n / 10) + [DigitChar(n % 10)]
  }

  /** Different numbers have different decimal forms. */
  lemma {:induction false} NatToStringInjective(a: nat, b: nat)
    requires NatToString(a) == NatToString(b)
    ensures a == b
    decreases a
  {
    if a >= 10 && b >= 10 {
      var sa, sb := NatToString(a), NatToString(b);
      assert sa[..|sa| - 1] == NatToString(a / 10);
      assert sb[..|sb| - 1] == NatToString(b / 10);
      NatToStringInjective(a / 10, b / 10);
      assert DigitChar(a % 10) == sa[|sa| - 1] == sb[|sb| - 1] == DigitChar(b % 10);
    }
  }

  /** Joining the pieces of a split with the same separator gives back the
      original string. */
  lemma {:induction false} SplitThenJoin(s: string, sep: string)
    ensures Join(Split(s, sep), sep) == s
    decreases |s|
  {
    if sep == [] {
      SplitCharsJoin(s);
    } else {
      var k := IndexOf(s, sep, 0);
      if k != -1 {
        var rest := s[k + |sep|..];
        SplitThenJoin(rest, sep);
        SplitFirstPiece(s, sep);
        JoinCons(s[..k], Split(rest, sep), sep);
        AroundOccurrence(s, sep, k);
      } else {
        assert Split(s, sep) == [s];
      }
    }
  }

  /** A split that finds the separator at `k` starts with the text before it. */
  lemma {:induction false} SplitFirstPiece(s: string, sep: string)
    requires sep != [] && IndexOf(s, sep, 0) != -1
    ensures var k := IndexOf(s, sep, 0);
      Split(s, sep) == [s[..k]] + Split(s[k + |sep|..], sep)
  {
  }

  lemma JoinCons(p: string, tail: seq<string>, sep: string)
    requires tail != []
    ensures Join([p] + tail, sep) == p + sep + Join(tail, sep)
  {
    assert ([p] + tail)[1..] == tail;
  }

  /** A text is the part before an occurrence, the occurrence, and the rest. */
  lemma AroundOccurrence(s: string, sep: string, k: int)
    requires OccursAt(s, sep, k)
    ensures s == s[..k] + sep + s[k + |sep|..]
  {
    assert s == s[..k] + s[k..k + |sep|] + s[k + |sep|..];
  }

  lemma {:induction false} SplitCharsJoin(s: string)
    ensures Join(Split(s, ""), "") == s
    decreases |s|
  {
    if |s| > 1 {
      SplitCharsJoin(s[1..]);
      assert Split(s, "")[1..] == Split(s[1..], "");
      assert s == [s[0]] + "" + s[1..];
    }
  }

  /** Splitting a join on a single-character separator gives back the
      pieces, provided no piece contains that character. */
  lemma {:induction false} JoinThenSplit(ps: seq<string>, sep: string)
    requires |sep| == 1 && |ps| >= 1
    requires forall i :: 0 <= i < |ps| ==> sep[0] !in ps[i]
    ensures Split(Join(ps, sep), sep) == ps
    decreases |ps|
  {
    var s := Join(ps, sep);
    var p := ps[0];
    if |ps| == 1 {
      NoOccurrence(p, sep, 0);
    } else {
      var rest := Join(ps[1..], sep);
      assert s == p + sep + rest;
      assert OccursAt(s, sep, |p|) by {
        assert s[|p|..|p| + 1] == sep;
      }
      forall i | 0 <= i < |p| ensures !OccursAt(s, sep, i) {
        assert s[i] == p[i];
      }
      assert IndexOf(s, sep, 0) == |p|;
      assert s[..|p|] == p;
      assert s[|p| + |sep|..] == rest;
      JoinThenSplit(ps[1..], sep);
    }
  }

  /** A string without the separator's character has no occurrence of it
      at or after `from`. */
  lemma {:induction false} NoOccurrence(p: string, sep: string, from: nat)
    requires |sep| == 1 && sep[0] !in p && from <= |p|
    ensures IndexOf(p, sep, from) == -1
    decreases |p| - from
  {
    if from < |p| {
      assert p[from] != sep[0];
      NoOccurrence(p, sep, from + 1);
    }
  }

  /** Appending one more piece to a join. */
  lemma {:induction false} JoinAppend(ps: seq<string>, x: string, sep: string)
    ensures Join(ps + [x], sep) == if ps == [] then x else Join(ps, sep) + sep + x
    decreases |ps|
  {
    if |ps| >= 2 {
      JoinAppend(ps[1..], x, sep);
      assert (ps + [x])[1..] == ps[1..] + [x];
    } else if |ps| == 1 {
      assert (ps + [x])[1..] == [x];
    }
  }
}
