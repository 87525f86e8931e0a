/**
 * Turning one input line into a command: the line is cut to 128 characters
 * (`strndup`), split on single spaces with empty pieces dropped (`strtok`),
 * and a trailing `&` word marks the command as a background one and is
 * removed from the argument list.
 */
module Tokenizer {

  datatype Option<T> = None | Some(value: T)

  /** The buffer length given to `strndup`. */
  const MaxLine := 128
  /** The argument slots `args[1..31]` leave room for a NULL after at most this many words. */
  const MaxWords := 30

  /** A command: its argument list (`argv[0]` is the program) and whether it runs in the background. */
  datatype Command = Command(argv: seq<string>, background: bool)

  /** A piece `strtok` can hand out: non-empty, without the delimiter. */
  predicate Plain(w: string) {
    w != [] && ' ' !in w
  }

  /** `strndup(line, 128)`: the first 128 characters of the line. */
  function Truncate(line: string): (t: string)
    ensures |t| <= MaxLine && t <= line
    ensures |t| == if |line| <= MaxLine then |line| else MaxLine
    ensures |line| <= MaxLine ==> t == line
  {
    if |line| <= MaxLine then line else line[..MaxLine]
  }

  /** The length of the token at the front of `s`: everything up to the next space. */
  function TokenLength(s: string): (n: nat)
    requires s != [] && s[0] != ' '
    ensures 1 <= n <= |s|
    ensures forall k :: 0 <= k < n ==> s[k] != ' '
    ensures n < |s| ==> s[n] == ' '
  {
    if |s| == 1 || s[1] == ' ' then 1 else 1 + TokenLength(s[1..])
  }

  /** The pieces successive `strtok(…, " ")` calls return: maximal runs of non-space characters, in order. */
  function Words(s: string): (ws: seq<string>)
    ensures forall w <- ws :: Plain(w)
    decreases |s|
  {
    if s == [] then []
    else if s[0] == ' ' then Words(s[1..])
    else
      var n := TokenLength(s);
      [s[..n]] + Words(s[n..])
  }

  /** The words separated by single spaces: the line a user types for them. */
  function Join(ws: seq<string>): string {
    if ws == [] then ""
    else if |ws| == 1 then ws[0]
    else ws[0] + " " + Join(ws[1..])
  }

  /**
   * The lines the shell handles without crashing or running past its
   * argument slots: an empty line, or one with 1 to 30 words that is not a
   * lone `&`.
   */
  predicate Tokenizable(line: string) {
    var t := Truncate(line);
    t == "" || (1 <= |Words(t)| <= MaxWords && Words(t) != ["&"])
  }

  /** The command a line stands for, or None for the empty line the shell skips. */
  function Parse(line: string): (r: Option<Command>)
    requires Tokenizable(line)
    ensures r.None? <==> Truncate(line) == ""
    ensures r.Some? ==>
              var ws := Words(Truncate(line));
              var argv := r.value.argv;
              1 <= |argv| && argv <= ws && argv[0] == ws[0] &&
              (r.value.background <==> ws[|ws| - 1] == "&") &&
              |ws| == |argv| + (if r.value.background then 1 else 0)
  {
    var t := Truncate(line);
    if t == "" then None
    else
      var ws := Words(t);
      if ws[|ws| - 1] == "&" then Some(Command(ws[..|ws| - 1], true))
      else Some(Command(ws, false))
  }

  /**
   * The tokenizing loop of the shell: `args[1]` gets the first word, then
   * slots 2.. are filled one `strtok` call at a time until it returns NULL;
   * at that point a last word `&` turns on background mode and is
   * overwritten by the terminating NULL. `args` here holds the source's
   * `args[1..]` up to that NULL.
   */
  method Tokenize(line: string) returns (cmd: Option<Command>)
    requires Tokenizable(line)
    ensures cmd == Parse(line)
  {
    var inarr := Truncate(line);
    if inarr == "" {
      return None;
    }
    var words := Words(inarr);
    var args := [words[0]];
    var background := false;
    var i := 2;
    while i < 32
      invariant 2 <= i <= |words| + 1
      invariant args == words[..i - 1]
      invariant !background
    {
      if i - 1 == |words| {
        // strtok returned NULL
        assert args == words;
        if args[i - 2] == "&" {
          background := true;
          i := i - 1;
        }
        args := args[..i - 1];
        break;
      }
      args := args + [words[i - 1]];
      i := i + 1;
    }
    cmd := Some(Command(args, background));
  }

  lemma {:induction false} TokenLengthOfPlain(w: string, rest: string)
    requires Plain(w)
    requires rest == [] || rest[0] == ' '
    ensures TokenLength(w + rest) == |w|
    decreases |w|
  {
    var s := w + rest;
    if |w| == 1 {
      assert |s| == 1 || s[1] == ' ';
    } else {
      assert s[1] == w[1] != ' ';
      assert s[1..] == w[1..] + rest;
      TokenLengthOfPlain(w[1..], rest);
    }
  }

  /** Splitting undoes joining: `strtok` recovers exactly the words a line was typed with. */
  lemma {:induction false} WordsOfJoin(ws: seq<string>)
    requires forall w <- ws :: Plain(w)
    ensures Words(Join(ws)) == ws
  {
    if ws == [] {
    } else if |ws| == 1 {
      var w := ws[0];
      TokenLengthOfPlain(w, "");
      assert w + "" == w;
      assert w[|w|..] == [];
    } else {
      var w, rest := ws[0], Join(ws[1..]);
      var s := w + " " + rest;
      assert s == w + (" " + rest);
      TokenLengthOfPlain(w, " " + rest);
      assert s[..|w|] == w;
      assert s[|w|..] == " " + rest;
      assert (" " + rest)[1..] == rest;
      WordsOfJoin(ws[1..]);
      assert ws == [w] + ws[1..];
    }
  }

  /** A typed foreground command line comes back as exactly its words. */
  lemma ParseForeground(ws: seq<string>)
    requires 1 <= |ws| <= MaxWords && forall w <- ws :: Plain(w)
    requires ws[|ws| - 1] != "&"
    requires |Join(ws)| <= MaxLine
    ensures Tokenizable(Join(ws))
    ensures Parse(Join(ws)) == Some(Command(ws, false))
  {
    WordsOfJoin(ws);
  }

  /** A typed line ending in a separate `&` runs its other words in the background. */
  lemma ParseBackground(ws: seq<string>)
    requires 1 <= |ws| < MaxWords && forall w <- ws :: Plain(w)
    requires |Join(ws + ["&"])| <= MaxLine
    ensures Tokenizable(Join(ws + ["&"]))
    ensures Parse(Join(ws + ["&"])) == Some(Command(ws, true))
  {
    var all := ws + ["&"];
    assert forall w <- all :: Plain(w);
    WordsOfJoin(all);
    assert all[..|all| - 1] == ws;
  }

  /** A run of n spaces. */
  function Spaces(n: nat): (s: string)
    ensures |s| == n && forall k :: 0 <= k < n ==> s[k] == ' '
  {
    seq(n, _ => ' ')
  }

  /**
   * The words laid out with gaps[0] spaces before the first, gaps[i] spaces
   * between words i-1 and i, and gaps[|ws|] spaces after the last.
   */
  function Spaced(ws: seq<string>, gaps: seq<nat>): string
    requires |gaps| == |ws| + 1
  {
    Spaces(gaps[0]) + (if ws == [] then "" else ws[0] + Spaced(ws[1..], gaps[1..]))
  }

  /** Leading spaces produce no piece: `strtok` skips delimiters before a token. */
  lemma {:induction false} WordsAfterSpaces(n: nat, s: string)
    ensures Words(Spaces(n) + s) == Words(s)
  {
    if n > 0 {
      var t := Spaces(n) + s;
      assert t[0] == ' ';
      assert t[1..] == Spaces(n - 1) + s;
      WordsAfterSpaces(n - 1, s);
    } else {
      assert Spaces(0) + s == s;
    }
  }

  /**
   * `strtok` drops empty pieces: however many spaces separate the words, and
   * however many lead or trail, the pieces are exactly the words, in order.
   */
  lemma {:induction false} WordsOfSpaced(ws: seq<string>, gaps: seq<nat>)
    requires |gaps| == |ws| + 1
    requires forall w <- ws :: Plain(w)
    requires forall i :: 0 < i < |ws| ==> gaps[i] >= 1
    ensures Words(Spaced(ws, gaps)) == ws
  {
    if ws == [] {
      WordsAfterSpaces(gaps[0], "");
      assert Spaced(ws, gaps) == Spaces(gaps[0]) + "";
    } else {
      var w, tail := ws[0], Spaced(ws[1..], gaps[1..]);
      WordsAfterSpaces(gaps[0], w + tail);
      assert tail == [] || tail[0] == ' ' by {
        if gaps[1] == 0 {
          assert ws[1..] == [];
        }
        assert tail == Spaces(gaps[1]) + (if ws[1..] == [] then "" else ws[1] + Spaced(ws[2..], gaps[2..]));
      }
      TokenLengthOfPlain(w, tail);
      var s := w + tail;
      assert s[..|w|] == w && s[|w|..] == tail;
      WordsOfSpaced(ws[1..], gaps[1..]);
      assert ws == [w] + ws[1..];
    }
  }

  /** For instance, two words with runs of spaces around and between them. */
  lemma SpacedExample()
    ensures Words("  ab   c ") == ["ab", "c"]
  {
    assert Spaced(["ab", "c"], [2, 3, 1]) == "  ab   c ";
    WordsOfSpaced(["ab", "c"], [2, 3, 1]);
  }
}
