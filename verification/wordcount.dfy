/**
 * The brace handling of the LaTeX word counter (wordcount.py):
 * remove_commands_with_braces deletes every `\cmd{...}` of a list of
 * commands, matching the braces with a depth counter and falling back to the
 * end of the line when the group is never closed; strip_other_commands
 * finally turns every remaining brace into a space.
 */
module WordCount {

  datatype Option<T> = None | Some(value: T)

  /** A match of `\\cmd\s*\{`: where the backslash and the opening brace are. */
  datatype Match = Match(start: nat, brace: nat)

  /** The characters Python's `\s` matches in a str pattern (those of str.isspace). */
  predicate IsSpace(c: char)
  {
    ('\t' <= c <= '\r') || ('\U{1C}' <= c <= '\U{1F}') || c == ' ' || c == '\U{85}' || c == '\U{A0}'
    || c == '\U{1680}' || ('\U{2000}' <= c <= '\U{200A}') || c == '\U{2028}' || c == '\U{2029}'
    || c == '\U{202F}' || c == '\U{205F}' || c == '\U{3000}'
  }

  /** ASCII lower case, the folding the IGNORECASE pattern applies to command letters. */
  function Lower(c: char): (r: char)
    ensures 'A' <= c <= 'Z' ==> 'a' <= r <= 'z'
    ensures !('A' <= c <= 'Z') ==> r == c
  {
    if 'A' <= c <= 'Z' then (c as int + 32) as char else c
  }

  /** The first position at or after p that is not whitespace (|text| if there is none). */
  function SkipSpace(text: string, p: nat): (r: nat)
    requires p <= |text|
    ensures p <= r <= |text|
    ensures forall k :: p <= k < r ==> IsSpace(text[k])
    ensures r < |text| ==> !IsSpace(text[r])
    decreases |text| - p
  {
    if p < |text| && IsSpace(text[p]) then SkipSpace(text, p + 1) else p
  }

  /** Whether the command name occurs at position p, ignoring ASCII case. */
  predicate NameAt(text: string, cmd: string, p: nat)
  {
    p + |cmd| <= |text| && forall k :: 0 <= k < |cmd| ==> Lower(text[p + k]) == Lower(cmd[k])
  }

  /**
   * The pattern `\\cmd\s*\{` matched at s: a backslash, the command name, a
   * run of whitespace and an opening brace, whose position is returned.
   */
  function MatchAt(text: string, cmd: string, s: nat): (r: Option<nat>)
    ensures r.Some? ==> s + |cmd| + 1 <= r.value < |text| && text[r.value] == '{'
    ensures r.Some? <==>
      s < |text| && text[s] == '\\' && NameAt(text, cmd, s + 1)
      && SkipSpace(text, s + 1 + |cmd|) < |text| && text[SkipSpace(text, s + 1 + |cmd|)] == '{'
  {
    if s < |text| && text[s] == '\\' && NameAt(text, cmd, s + 1) then
      var p := SkipSpace(text, s + 1 + |cmd|);
      if p < |text| && text[p] == '{' then Some(p) else None
    else None
  }

  /** `pat.search(text)` from position s: the leftmost match at or after s. */
  function SearchFrom(text: string, cmd: string, s: nat): (r: Option<Match>)
    ensures r.Some? ==> s <= r.value.start && MatchAt(text, cmd, r.value.start) == Some(r.value.brace)
    decreases |text| - s
  {
    if s >= |text| then None
    else match MatchAt(text, cmd, s)
      case Some(b) => Some(Match(s, b))
      case None => SearchFrom(text, cmd, s + 1)
  }

  /** `pat.search(text)`. */
  function Search(text: string, cmd: string): Option<Match>
  {
    SearchFrom(text, cmd, 0)
  }

  /** The search finds the leftmost match, and finds nothing only when there is no match at all. */
  lemma {:induction false} SearchFromLeftmost(text: string, cmd: string, s: nat)
    ensures SearchFrom(text, cmd, s).None? <==> forall q: nat :: s <= q ==> MatchAt(text, cmd, q).None?
    ensures SearchFrom(text, cmd, s).Some? ==>
      forall q: nat :: s <= q < SearchFrom(text, cmd, s).value.start ==> MatchAt(text, cmd, q).None?
    decreases |text| - s
  {
    if s >= |text| {
      assert SearchFrom(text, cmd, s) == None;
    } else if MatchAt(text, cmd, s).None? {
      SearchFromLeftmost(text, cmd, s + 1);
      assert SearchFrom(text, cmd, s) == SearchFrom(text, cmd, s + 1);
    }
  }

  /** How a character moves the brace depth. */
  function Delta(c: char): int
  {
    if c == '{' then 1 else if c == '}' then -1 else 0
  }

  /** The brace depth after reading text[i..k] from depth 0. */
  function Depth(text: string, i: nat, k: nat): int
    requires i <= k <= |text|
    decreases k
  {
    if k == i then 0 else Depth(text, i, k - 1) + Delta(text[k - 1])
  }

  /**
   * The matching brace of the `{` at i, searched from position j on: the first
   * position e >= j after which the depth counted from i is back to 0.
   */
  function ClosingFrom(text: string, i: nat, j: nat): (r: Option<nat>)
    requires i <= j <= |text|
    ensures r.Some? ==> j <= r.value < |text| && Depth(text, i, r.value + 1) == 0
    decreases |text| - j
  {
    if j == |text| then None
    else if Depth(text, i, j + 1) == 0 then Some(j)
    else ClosingFrom(text, i, j + 1)
  }

  /** The matching closing brace of the opening brace at i, if the group is ever closed. */
  function Closing(text: string, i: nat): Option<nat>
    requires i <= |text|
  {
    ClosingFrom(text, i, i)
  }

  /**
   * What Closing finds: the depth stays positive before it, so it is the
   * first return to depth 0, and it is a closing brace; when it finds
   * nothing, the depth stays positive to the end of the text.
   */
  lemma {:induction false} ClosingFromFirst(text: string, i: nat, j: nat)
    requires i < |text| && text[i] == '{' && i <= j <= |text|
    requires forall k :: i < k <= j ==> Depth(text, i, k) > 0
    ensures ClosingFrom(text, i, j).Some? ==>
      var e := ClosingFrom(text, i, j).value;
      i < e && text[e] == '}' && forall k :: i < k <= e ==> Depth(text, i, k) > 0
    ensures ClosingFrom(text, i, j).None? ==> forall k :: i < k <= |text| ==> Depth(text, i, k) > 0
    decreases |text| - j
  {
    if j < |text| {
      if j == i {
        assert Depth(text, i, i + 1) == 1;
      } else {
        assert Depth(text, i, j) > 0;
      }
      if Depth(text, i, j + 1) != 0 {
        ClosingFromFirst(text, i, j + 1);
      }
    }
  }

  /**
   * `for j in range(i, len(text))` with the depth counter: the loop stops at
   * the first position where the depth returns to 0, the matching brace, or
   * runs off the end of the text without one.
   */
  method MatchingBrace(text: string, i: nat) returns (end: Option<nat>)
    requires i < |text| && text[i] == '{'
    ensures end == Closing(text, i)
  {
    var depth := 0;
    end := None;
    var j := i;
    while j < |text|
      invariant i <= j <= |text|
      invariant depth == Depth(text, i, j)
      invariant forall k :: i < k <= j ==> Depth(text, i, k) > 0
      invariant Closing(text, i) == ClosingFrom(text, i, j)
    {
      if text[j] == '{' {
        depth := depth + 1;
      } else if text[j] == '}' {
        depth := depth - 1;
        if depth == 0 {
          end := Some(j);
          break;
        }
      }
      j := j + 1;
    }
  }

  /** `text.find('\n', p)`, with -1 read as len(text): the first newline at or after p. */
  function NextNewline(text: string, p: nat): (r: nat)
    requires p <= |text|
    ensures p <= r <= |text| && (r < |text| ==> text[r] == '\n')
    ensures forall k :: p <= k < r ==> text[k] != '\n'
    decreases |text| - p
  {
    if p == |text| || text[p] == '\n' then p else NextNewline(text, p + 1)
  }

  /** `text[:start] + ' ' + text[stop:]`: the span [start, stop) becomes one space. */
  function Replace(text: string, start: nat, stop: nat): (r: string)
    requires start <= stop <= |text|
    ensures |r| == |text| - (stop - start) + 1
    ensures r[..start] == text[..start] && r[start] == ' ' && r[start + 1..] == text[stop..]
  {
    text[..start] + " " + text[stop..]
  }

  /**
   * One round of the while loop for a match m: the span from the backslash
   * through the matching brace, or, with no matching brace, up to the next
   * newline, becomes a single space.
   */
  function Splice(text: string, cmd: string, m: Match): (r: string)
    requires MatchAt(text, cmd, m.start) == Some(m.brace)
  {
    match Closing(text, m.brace)
    case Some(e) => Replace(text, m.start, e + 1)
    case None => Replace(text, m.start, NextNewline(text, m.brace + 1))
  }

  /**
   * A round removes a span of at least two characters (`\` and `{`) and puts
   * one space in its place: the text gets strictly shorter, so the loop ends.
   * When the group is closed, the span removed is `\cmd`, whitespace and a
   * brace group of balance 0; otherwise it ends just before the next newline.
   */
  lemma SpliceShape(text: string, cmd: string, m: Match)
    requires MatchAt(text, cmd, m.start) == Some(m.brace)
    ensures |Splice(text, cmd, m)| < |text|
    ensures Splice(text, cmd, m)[..m.start] == text[..m.start] && Splice(text, cmd, m)[m.start] == ' '
    ensures Closing(text, m.brace).Some? ==>
      var e := Closing(text, m.brace).value;
      m.brace < e && text[e] == '}' && Depth(text, m.brace, e + 1) == 0
      && Splice(text, cmd, m)[m.start + 1..] == text[e + 1..]
    ensures Closing(text, m.brace).None? ==>
      var nl := NextNewline(text, m.brace + 1);
      Splice(text, cmd, m)[m.start + 1..] == text[nl..]
  {
    ClosingFromFirst(text, m.brace, m.brace);
    var r := Splice(text, cmd, m);
    match Closing(text, m.brace)
    case Some(e) =>
      assert r[m.start + 1..] == text[e + 1..];
    case None =>
      var nl := NextNewline(text, m.brace + 1);
      assert r[m.start + 1..] == text[nl..];
  }

  /** No occurrence of `\\cmd`, whitespace, `{` anywhere in the text. */
  ghost predicate NoMatch(text: string, cmd: string)
  {
    forall q: nat :: MatchAt(text, cmd, q).None?
  }

  /** The text after the while loop for one command: splice the leftmost match until none is left. */
  function RemoveAll(text: string, cmd: string): string
    decreases |text|
  {
    match Search(text, cmd)
    case None => text
    case Some(m) =>
      SpliceShape(text, cmd, m);
      RemoveAll(Splice(text, cmd, m), cmd)
  }

  /**
   * On leaving the loop for a command no `\cmd`, whitespace, `{` is left in
   * the text, the text is no longer than before, and it is untouched exactly
   * when it held no such occurrence.
   */
  lemma {:induction false} RemoveAllClears(text: string, cmd: string)
    ensures NoMatch(RemoveAll(text, cmd), cmd)
    ensures |RemoveAll(text, cmd)| <= |text|
    ensures RemoveAll(text, cmd) == text <==> Search(text, cmd).None?
    decreases |text|
  {
    match Search(text, cmd)
    case None =>
      SearchFromLeftmost(text, cmd, 0);
    case Some(m) =>
      SpliceShape(text, cmd, m);
      RemoveAllClears(Splice(text, cmd, m), cmd);
  }

  /** The commands applied in order: commands[0] first, each on the result of the ones before. */
  function RemoveEach(text: string, commands: seq<string>): string
    decreases |commands|
  {
    if commands == [] then text
    else RemoveAll(RemoveEach(text, commands[..|commands| - 1]), commands[|commands| - 1])
  }

  /** Removing commands never lengthens the text. */
  lemma {:induction false} RemoveEachShorter(text: string, commands: seq<string>)
    ensures |RemoveEach(text, commands)| <= |text|
    decreases |commands|
  {
    if commands != [] {
      RemoveEachShorter(text, commands[..|commands| - 1]);
      RemoveAllClears(RemoveEach(text, commands[..|commands| - 1]), commands[|commands| - 1]);
    }
  }

  /**
   * The `while True` loop of remove_commands_with_braces for one command:
   * splice out the leftmost `\\cmd{...}` until the pattern no longer matches.
   */
  method RemoveCommand(text: string, cmd: string) returns (result: string)
    ensures result == RemoveAll(text, cmd)
    ensures NoMatch(result, cmd) && |result| <= |text|
  {
    result := text;
    while true
      invariant RemoveAll(result, cmd) == RemoveAll(text, cmd)
      decreases |result|
    {
      var m := Search(result, cmd);
      if m.None? {
        break;
      }
      var start := m.value.start;
      var end := MatchingBrace(result, m.value.brace);
      var stop;
      if end.None? {
        stop := NextNewline(result, m.value.brace + 1);
      } else {
        stop := end.value + 1;
      }
      RoundKeeps(result, cmd, m.value, stop);
      result := Replace(result, start, stop);
    }
    RemoveAllClears(text, cmd);
  }

  /**
   * One round of the loop, which cuts [start, stop) with stop just past the
   * matching brace or at the next newline, keeps what the loop ends with and
   * shortens the text.
   */
  lemma RoundKeeps(text: string, cmd: string, m: Match, stop: nat)
    requires Search(text, cmd) == Some(m)
    requires MatchAt(text, cmd, m.start) == Some(m.brace)
    requires stop == match Closing(text, m.brace)
      case Some(e) => e + 1
      case None => NextNewline(text, m.brace + 1)
    ensures m.start <= stop <= |text|
    ensures RemoveAll(Replace(text, m.start, stop), cmd) == RemoveAll(text, cmd)
    ensures |Replace(text, m.start, stop)| < |text|
  {
    SpliceShape(text, cmd, m);
    SpliceCases(text, cmd, m);
  }

  /** The two ways a round ends: at the matching brace, or at the next newline. */
  lemma SpliceCases(text: string, cmd: string, m: Match)
    requires MatchAt(text, cmd, m.start) == Some(m.brace)
    ensures Closing(text, m.brace).Some? ==>
      Splice(text, cmd, m) == Replace(text, m.start, Closing(text, m.brace).value + 1)
    ensures Closing(text, m.brace).None? ==>
      Splice(text, cmd, m) == Replace(text, m.start, NextNewline(text, m.brace + 1))
  {
  }

  /**
   * remove_commands_with_braces: the commands are removed in list order; the
   * text only gets shorter, and the last command's pattern matches nowhere in
   * the result.
   */
  method RemoveCommandsWithBraces(text: string, commands: seq<string>) returns (result: string)
    ensures result == RemoveEach(text, commands)
    ensures |result| <= |text|
    ensures commands != [] ==> NoMatch(result, commands[|commands| - 1])
  {
    result := text;
    for c := 0 to |commands|
      invariant result == RemoveEach(text, commands[..c])
    {
      result := RemoveCommand(result, commands[c]);
      assert commands[..c + 1][..c] == commands[..c];
    }
    assert commands[..|commands|] == commands;
    RemoveEachShorter(text, commands);
    if commands != [] {
      RemoveAllClears(RemoveEach(text, commands[..|commands| - 1]), commands[|commands| - 1]);
    }
  }

  /** `text.replace(c, ' ')`: every occurrence of c becomes a space, nothing else changes. */
  function ReplaceChar(text: string, c: char): (r: string)
    ensures |r| == |text|
    ensures forall k :: 0 <= k < |text| && text[k] != c ==> r[k] == text[k]
    ensures c != ' ' ==> c !in r
  {
    seq(|text|, k requires 0 <= k < |text| => if text[k] == c then ' ' else text[k])
  }

  /**
   * `text.replace('{', ' ').replace('}', ' ')` in strip_other_commands: the
   * length is unchanged, no brace is left, and every other character stays
   * where it was.
   */
  function StripBraces(text: string): (r: string)
    ensures |r| == |text|
    ensures '{' !in r && '}' !in r
    ensures forall k :: 0 <= k < |text| && text[k] != '{' && text[k] != '}' ==> r[k] == text[k]
    ensures forall k :: 0 <= k < |text| && (text[k] == '{' || text[k] == '}') ==> r[k] == ' '
  {
    ReplaceChar(ReplaceChar(text, '{'), '}')
  }
}
