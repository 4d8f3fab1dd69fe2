/**
 * The command-line parser of tsh.c (parseline) and the recogniser of the
 * built-in command names (builtin_cmd).
 *
 * parseline copies the line into a buffer, turns its last character (the
 * newline) into a space, and then repeatedly skips spaces and cuts out
 * one argument: up to the next quote when the argument starts with a
 * quote, up to the next space otherwise. A trailing text with no closing
 * delimiter is dropped. The job runs in the background when the last
 * argument starts with '&', which is then removed; a blank line counts as
 * a background request.
 */
module Parse {
  import opened Wrappers

  const MAXLINE: nat := 1024
  const MAXARGS: nat := 128

  // ---------------------------------------------------------------------
  // The specification, over positions in the buffer

  /** The position the space-skipping loop stops at. */
  function SkipSpaces(b: string, pos: nat): (r: nat)
    requires pos <= |b|
    ensures pos <= r <= |b|
    decreases |b| - pos
  {
    if pos < |b| && b[pos] == ' ' then SkipSpaces(b, pos + 1) else pos
  }

  /** It is the first position from pos on that is not a space, or the
      end of the text. */
  lemma {:induction false} SkipSpacesStops(b: string, pos: nat)
    requires pos <= |b|
    ensures forall k :: pos <= k < SkipSpaces(b, pos) ==> b[k] == ' '
    ensures SkipSpaces(b, pos) == |b| || b[SkipSpaces(b, pos)] != ' '
    decreases |b| - pos
  {
    if pos < |b| && b[pos] == ' ' {
      SkipSpacesStops(b, pos + 1);
    }
  }

  /** strchr: where the search for c from `from` on stops, if anywhere. */
  function IndexOf(b: string, from: nat, c: char): (r: Option<nat>)
    requires from <= |b|
    ensures r.Some? ==> from <= r.value < |b|
    decreases |b| - from
  {
    if from == |b| then None
    else if b[from] == c then Some(from)
    else IndexOf(b, from + 1, c)
  }

  /** The search finds the first occurrence of c from `from` on, and finds
      nothing exactly when c does not occur there. */
  lemma {:induction false} IndexOfFinds(b: string, from: nat, c: char)
    requires from <= |b|
    ensures IndexOf(b, from, c).Some? ==> b[IndexOf(b, from, c).value] == c
    ensures IndexOf(b, from, c).Some? ==> forall k :: from <= k < IndexOf(b, from, c).value ==> b[k] != c
    ensures IndexOf(b, from, c).None? <==> forall k :: from <= k < |b| ==> b[k] != c
    decreases |b| - from
  {
    if from < |b| && b[from] != c {
      IndexOfFinds(b, from + 1, c);
    }
  }

  /** An argument's place in the buffer: from start up to, not including,
      the delimiter at end. */
  datatype Span = Span(start: nat, end: nat)

  /** The next argument from pos on: skip spaces; after an opening quote
      it runs to the next quote, otherwise to the next space; none when
      that delimiter is missing. */
  function NextToken(b: string, pos: nat): (r: Option<Span>)
    requires pos <= |b|
    ensures r.Some? ==> pos <= r.value.start <= r.value.end < |b|
  {
    var p := SkipSpaces(b, pos);
    if p < |b| && b[p] == '\'' then
      match IndexOf(b, p + 1, '\'')
      case None => None
      case Some(d) => Some(Span(p + 1, d))
    else
      match IndexOf(b, p, ' ')
      case None => None
      case Some(d) => Some(Span(p, d))
  }

  /** Every argument from pos on, in order. */
  function Tokens(b: string, pos: nat): seq<string>
    requires pos <= |b|
    decreases |b| - pos
  {
    match NextToken(b, pos)
    case None => []
    case Some(sp) => [b[sp.start..sp.end]] + Tokens(b, sp.end + 1)
  }

  /** The working copy of the line, its last character made a space. */
  function Buffer(line: string): (b: string)
    requires |line| >= 1
    ensures |b| == |line| && b[|b| - 1] == ' '
    ensures forall k :: 0 <= k < |b| - 1 ==> b[k] == line[k]
  {
    line[..|line| - 1] + " "
  }

  /** The arguments parseline leaves in argv and its background flag. */
  datatype Parsed = Parsed(argv: seq<string>, bg: bool)

  /** The test parseline applies to the last argument: does its first
      character exist and is it '&'? */
  predicate StartsWithAmp(w: string)
  {
    |w| > 0 && w[0] == '&'
  }

  /** What parseline computes for a line: argv is the arguments of the
      line, less the last one exactly when that starts with '&'; the job
      runs in the background exactly when that argument was dropped or
      the line has no arguments at all. */
  function ParseResult(line: string): (r: Parsed)
    requires |line| >= 1
    ensures var toks := Tokens(Buffer(line), 0);
            && |r.argv| <= |toks| && r.argv == toks[..|r.argv|]
            && |r.argv| == (if toks != [] && StartsWithAmp(toks[|toks| - 1]) then |toks| - 1 else |toks|)
            && (r.bg <==> |r.argv| < |toks| || toks == [])
  {
    var toks := Tokens(Buffer(line), 0);
    if toks == [] then Parsed([], true)
    else if StartsWithAmp(toks[|toks| - 1]) then Parsed(toks[..|toks| - 1], true)
    else Parsed(toks, false)
  }

  // ---------------------------------------------------------------------
  // Properties

  /** A line of nothing but spaces before its newline has no arguments and
      is reported as a background request. */
  lemma BlankLineIsBackground(line: string)
    requires |line| >= 1
    requires forall k :: 0 <= k < |line| - 1 ==> line[k] == ' '
    ensures ParseResult(line) == Parsed([], true)
  {
    var b := Buffer(line);
    SkipSpacesStops(b, 0);
    assert SkipSpaces(b, 0) == |b|;
  }

  /** An argument as typed: a plain word, or a text between quotes. */
  datatype Arg = Plain(text: string) | Quoted(text: string)

  /** An argument that does not open with a quote is the non-empty run of
      non-spaces up to the next space. */
  lemma PlainSpan(b: string, pos: nat)
    requires pos <= |b| && NextToken(b, pos).Some?
    requires SkipSpaces(b, pos) < |b| && b[SkipSpaces(b, pos)] != '\''
    ensures var sp := NextToken(b, pos).value;
            && sp.start == SkipSpaces(b, pos) < sp.end && b[sp.end] == ' '
            && forall k :: sp.start <= k < sp.end ==> b[k] != ' '
  {
    SkipSpacesStops(b, pos);
    IndexOfFinds(b, SkipSpaces(b, pos), ' ');
  }

  /** An argument that opens with a quote is the text after it up to the
      next quote, which holds no quote. */
  lemma QuotedSpan(b: string, pos: nat)
    requires pos <= |b| && NextToken(b, pos).Some?
    requires SkipSpaces(b, pos) < |b| && b[SkipSpaces(b, pos)] == '\''
    ensures var sp := NextToken(b, pos).value;
            && sp.start == SkipSpaces(b, pos) + 1 && b[sp.end] == '\''
            && forall k :: sp.start <= k < sp.end ==> b[k] != '\''
  {
    IndexOfFinds(b, SkipSpaces(b, pos) + 1, '\'');
  }

  /** Every argument takes up at least two characters of the buffer: a
      plain one at least one character and its space, a quoted one at
      least its two quotes. So a line holds at most half as many
      arguments as it has characters. */
  lemma {:induction false} TokensFit(b: string, pos: nat)
    requires pos <= |b|
    ensures 2 * |Tokens(b, pos)| <= |b| - pos
    decreases |b| - pos
  {
    if NextToken(b, pos).Some? {
      var sp := NextToken(b, pos).value;
      NextTokenAdvances(b, pos);
      TokensStep(b, pos, sp, b[sp.start..sp.end]);
      TokensFit(b, sp.end + 1);
    }
  }

  /** An argument ends at least one character after pos, so with its
      delimiter it takes up two. */
  lemma NextTokenAdvances(b: string, pos: nat)
    requires pos <= |b| && NextToken(b, pos).Some?
    ensures pos < NextToken(b, pos).value.end
  {
    var p := SkipSpaces(b, pos);
    if p < |b| && b[p] == '\'' {
      QuotedSpan(b, pos);
    } else {
      PlainSpan(b, pos);
    }
  }

  /** The arguments from pos on, each tagged with whether it was quoted. */
  function ArgsOf(b: string, pos: nat): seq<Arg>
    requires pos <= |b|
    decreases |b| - pos
  {
    match NextToken(b, pos)
    case None => []
    case Some(sp) =>
      var p := SkipSpaces(b, pos);
      var w := b[sp.start..sp.end];
      [if p < |b| && b[p] == '\'' then Quoted(w) else Plain(w)] + ArgsOf(b, sp.end + 1)
  }

  /** On any buffer, every argument parseline cuts out is well formed: an
      unquoted one is non-empty, has no space and does not start with a
      quote, a quoted one has no quote inside. */
  lemma {:induction false} ArgsAreWellFormed(b: string, pos: nat)
    requires pos <= |b|
    ensures Texts(ArgsOf(b, pos)) == Tokens(b, pos)
    ensures forall i :: 0 <= i < |ArgsOf(b, pos)| ==> WellFormed(ArgsOf(b, pos)[i])
    decreases |b| - pos
  {
    match NextToken(b, pos)
    case None =>
    case Some(sp) =>
      var p := SkipSpaces(b, pos);
      var args := ArgsOf(b, pos);
      ArgsAreWellFormed(b, sp.end + 1);
      if p < |b| && b[p] == '\'' {
        QuotedSpan(b, pos);
      } else {
        SkipSpacesStops(b, pos);
        PlainSpan(b, pos);
      }
      assert WellFormed(args[0]);
      assert args[1..] == ArgsOf(b, sp.end + 1);
      TextsCons(args);
  }

  /** A plain word is not empty, has no space and does not start with a
      quote; a quoted text has no quote inside. */
  predicate WellFormed(a: Arg)
  {
    match a
    case Plain(w) => |w| > 0 && w[0] != '\'' && forall k :: 0 <= k < |w| ==> w[k] != ' '
    case Quoted(w) => forall k :: 0 <= k < |w| ==> w[k] != '\''
  }

  function Rendered(a: Arg): string
  {
    match a
    case Plain(w) => w
    case Quoted(w) => "'" + w + "'"
  }

  /** The arguments as typed, each followed by one space. */
  function Spaced(args: seq<Arg>): (r: string)
    ensures |args| > 0 ==> |r| > 0 && r[|r| - 1] == ' '
  {
    if args == [] then "" else Rendered(args[0]) + " " + Spaced(args[1..])
  }

  function Texts(args: seq<Arg>): (r: seq<string>)
    ensures |r| == |args|
    ensures forall i :: 0 <= i < |args| ==> r[i] == args[i].text
  {
    seq(|args|, i requires 0 <= i < |args| => args[i].text)
  }

  /** A search that meets c at k, and nowhere before it, finds k. */
  lemma IndexOfAt(b: string, from: nat, c: char, k: nat)
    requires from <= k < |b| && b[k] == c
    requires forall j :: from <= j < k ==> b[j] != c
    ensures IndexOf(b, from, c) == Some(k)
  {
    IndexOfFinds(b, from, c);
  }

  /** The arguments from pos on are the next one, w, and those after it. */
  lemma TokensStep(b: string, pos: nat, sp: Span, w: string)
    requires pos <= |b|
    requires NextToken(b, pos) == Some(sp)
    requires b[sp.start..sp.end] == w
    ensures sp.end < |b|
    ensures Tokens(b, pos) == [w] + Tokens(b, sp.end + 1)
  {
  }

  /** Reading one more argument: what has been read so far grows by it. */
  lemma TokensAdvance(b: string, pos: nat, sp: Span, rest: seq<string>, w: string)
    requires pos <= |b| && NextToken(b, pos) == Some(sp) && w == b[sp.start..sp.end]
    requires rest == Tokens(b, pos)
    ensures |rest| > 0 && rest[0] == w && rest[1..] == Tokens(b, sp.end + 1)
  {
    TokensStep(b, pos, sp, w);
  }

  /** A plain word at p, followed by a space, is the next argument, and
      reading goes on at e, after the space. */
  lemma PlainToken(b: string, p: nat, w: string, e: nat)
    requires WellFormed(Plain(w))
    requires p + |w| < |b| && b[p..p + |w|] == w && b[p + |w|] == ' '
    requires e == p + |w| + 1
    ensures Tokens(b, p) == [w] + Tokens(b, e)
  {
    assert NextToken(b, p) == Some(Span(p, p + |w|)) by {
      assert b[p] == w[0];
      assert SkipSpaces(b, p) == p;
      assert forall k :: p <= k < p + |w| ==> b[k] == w[k - p];
      IndexOfAt(b, p, ' ', p + |w|);
    }
    TokensStep(b, p, Span(p, p + |w|), w);
  }

  /** A quoted text at p is the next argument, without its quotes, and
      reading goes on at e, after the closing quote. */
  lemma QuotedToken(b: string, p: nat, w: string, e: nat)
    requires WellFormed(Quoted(w))
    requires p + |w| + 1 < |b| && b[p] == '\'' && b[p + 1..p + 1 + |w|] == w && b[p + 1 + |w|] == '\''
    requires e == p + |w| + 2
    ensures Tokens(b, p) == [w] + Tokens(b, e)
  {
    assert NextToken(b, p) == Some(Span(p + 1, p + 1 + |w|)) by {
      assert SkipSpaces(b, p) == p;
      assert forall k :: p + 1 <= k < p + 1 + |w| ==> b[k] == w[k - p - 1];
      IndexOfAt(b, p + 1, '\'', p + 1 + |w|);
    }
    TokensStep(b, p, Span(p + 1, p + 1 + |w|), w);
  }

  /** A quoted text at p followed by a space is the next argument, and
      reading goes on at e, after that space. */
  lemma QuotedSpacedToken(b: string, p: nat, w: string, e: nat)
    requires WellFormed(Quoted(w))
    requires p + |w| + 2 < |b| && b[p] == '\'' && b[p + 1..p + 1 + |w|] == w && b[p + 1 + |w|] == '\''
    requires b[p + |w| + 2] == ' ' && e == p + |w| + 3
    ensures Tokens(b, p) == [w] + Tokens(b, e)
  {
    assert Tokens(b, p) == [w] + Tokens(b, e - 1) by {
      QuotedToken(b, p, w, e - 1);
    }
    assert Tokens(b, e - 1) == Tokens(b, e) by {
      SpaceBeforeTokens(b, e - 1);
    }
  }

  /** A space where reading resumes changes nothing. */
  lemma SpaceBeforeTokens(b: string, q: nat)
    requires q < |b| && b[q] == ' '
    ensures Tokens(b, q) == Tokens(b, q + 1)
  {
    assert NextToken(b, q) == NextToken(b, q + 1);
  }

  /** Where the first argument and the space after it sit in the text. */
  lemma SpacedLayout(pre: string, args: seq<Arg>)
    requires |args| > 0
    ensures var r := Rendered(args[0]);
            && pre + Spaced(args) == (pre + r + " ") + Spaced(args[1..])
            && (pre + Spaced(args))[|pre|..|pre| + |r|] == r
            && (pre + Spaced(args))[|pre| + |r|] == ' '
  {
    var r := Rendered(args[0]);
    var rest := Spaced(args[1..]);
    assert Spaced(args) == r + " " + rest;
    WordLayout(pre, r, rest);
  }

  /** The same for any word r and any text after its space. */
  lemma WordLayout(pre: string, r: string, rest: string)
    ensures var b := pre + (r + " " + rest);
            && b == (pre + r + " ") + rest
            && b[|pre|..|pre| + |r|] == r
            && b[|pre| + |r|] == ' '
  {
    var b := pre + (r + " " + rest);
    forall k | 0 <= k <= |r|
      ensures b[|pre| + k] == (r + " ")[k]
    {
    }
    assert b[|pre|..|pre| + |r|] == r;
  }

  /** A quoted text at p: the opening quote, the text, the closing quote. */
  lemma QuotedLayout(b: string, p: nat, w: string)
    requires p + |w| + 2 <= |b| && b[p..p + |w| + 2] == "'" + w + "'"
    ensures b[p] == '\'' && b[p + 1..p + 1 + |w|] == w && b[p + 1 + |w|] == '\''
  {
    var r := "'" + w + "'";
    forall k | 0 <= k < |r|
      ensures b[p + k] == r[k]
    {
      assert b[p..p + |r|][k] == r[k];
    }
    assert b[p] == r[0] && b[p + 1 + |w|] == r[1 + |w|];
    forall k | 0 <= k < |w|
      ensures b[p + 1..p + 1 + |w|][k] == w[k]
    {
      assert r[1 + k] == w[k];
    }
  }

  /** An argument typed at p and followed by a space is read back as its
      text, and reading goes on at e, after that space. */
  lemma FirstToken(b: string, p: nat, a: Arg, e: nat)
    requires WellFormed(a)
    requires p + |Rendered(a)| < |b|
    requires b[p..p + |Rendered(a)|] == Rendered(a) && b[p + |Rendered(a)|] == ' '
    requires e == p + |Rendered(a)| + 1
    ensures Tokens(b, p) == [a.text] + Tokens(b, e)
  {
    var r := Rendered(a);
    match a {
      case Plain(w) =>
        PlainToken(b, p, w, e);
      case Quoted(w) =>
        QuotedLayout(b, p, w);
        QuotedSpacedToken(b, p, w, e);
    }
  }

  /** After any text, the arguments typed one space apart are read back
      as their texts: plain words and quoted texts alike, spaces inside
      quotes included. */
  lemma {:induction false} TokensOfSpaced(b: string, pre: string, args: seq<Arg>)
    requires forall i :: 0 <= i < |args| ==> WellFormed(args[i])
    requires b == pre + Spaced(args)
    ensures Tokens(b, |pre|) == Texts(args)
    decreases |args|
  {
    if args == [] {
      assert |pre| == |b|;
      assert IndexOf(b, |b|, ' ') == None;
    } else {
      var pre' := pre + Rendered(args[0]) + " ";
      SpacedLayout(pre, args);
      FirstToken(b, |pre|, args[0], |pre'|);
      TokensOfSpaced(b, pre', args[1..]);
      TextsCons(args);
    }
  }

  lemma TextsCons(args: seq<Arg>)
    requires |args| > 0
    ensures Texts(args) == [args[0].text] + Texts(args[1..])
  {
  }

  /** The line typed for the arguments: one space between them, then the
      newline. */
  function Typed(args: seq<Arg>): (line: string)
    requires |args| > 0
    ensures |line| >= 1 && Buffer(line) == Spaced(args)
  {
    var s := Spaced(args);
    s[..|s| - 1] + "\n"
  }

  /** The line typed for well-formed arguments is read back as their
      texts. */
  lemma TokensOfTyped(args: seq<Arg>)
    requires |args| > 0
    requires forall i :: 0 <= i < |args| ==> WellFormed(args[i])
    ensures Tokens(Buffer(Typed(args)), 0) == Texts(args)
  {
    var b := Spaced(args);
    assert b == "" + b;
    TokensOfSpaced(b, "", args);
  }

  /**
   * parseline reads back what was typed: the arguments in order, and the
   * background flag exactly when a separate "&" was typed at the end
   * (which is then not an argument).
   */
  lemma ParseTyped(args: seq<Arg>, bg: bool)
    requires |args| > 0
    requires forall i :: 0 <= i < |args| ==> WellFormed(args[i])
    requires !StartsWithAmp(args[|args| - 1].text)
    ensures ParseResult(Typed(args + if bg then [Plain("&")] else [])) == Parsed(Texts(args), bg)
  {
    var all := args + if bg then [Plain("&")] else [];
    WellFormedAppend(args, if bg then [Plain("&")] else []);
    TokensOfTyped(all);
    var toks := Texts(all);
    ParseResultOf(Typed(all), toks);
    if bg {
      TextsSnoc(args, Plain("&"));
      assert toks[..|toks| - 1] == Texts(args);
    } else {
      assert all == args;
    }
  }

  /**
   * Any last argument whose text starts with '&' asks for the background
   * and is dropped, whatever follows the '&' and whether or not it was
   * quoted: parseline looks only at the first character.
   */
  lemma ParseAmpWord(args: seq<Arg>, a: Arg)
    requires forall i :: 0 <= i < |args| ==> WellFormed(args[i])
    requires WellFormed(a) && StartsWithAmp(a.text)
    ensures ParseResult(Typed(args + [a])) == Parsed(Texts(args), true)
  {
    var all := args + [a];
    WellFormedAppend(args, [a]);
    TokensOfTyped(all);
    var toks := Texts(all);
    ParseResultOf(Typed(all), toks);
    TextsSnoc(args, a);
    assert toks[..|toks| - 1] == Texts(args);
  }

  /** What parseline makes of the arguments the line was split into. */
  lemma WellFormedAppend(args: seq<Arg>, more: seq<Arg>)
    requires forall i :: 0 <= i < |args| ==> WellFormed(args[i])
    requires forall i :: 0 <= i < |more| ==> WellFormed(more[i])
    ensures forall i :: 0 <= i < |args + more| ==> WellFormed((args + more)[i])
  {
    forall i | 0 <= i < |args + more|
      ensures WellFormed((args + more)[i])
    {
      if i < |args| {
        assert (args + more)[i] == args[i];
      } else {
        assert (args + more)[i] == more[i - |args|];
      }
    }
  }

  lemma TextsSnoc(args: seq<Arg>, a: Arg)
    ensures Texts(args + [a]) == Texts(args) + [a.text]
  {
  }

  lemma ParseResultOf(line: string, toks: seq<string>)
    requires |line| >= 1 && Tokens(Buffer(line), 0) == toks
    ensures ParseResult(line) ==
              if toks == [] then Parsed([], true)
              else if StartsWithAmp(toks[|toks| - 1]) then Parsed(toks[..|toks| - 1], true)
              else Parsed(toks, false)
  {
  }

  /** A line that fits the input buffer can hold more arguments than argv
      has room for: 128 one-letter words take 256 characters. */
  lemma ArgvOverflow()
    ensures exists line :: 1 <= |line| < MAXLINE &&
                           (forall k :: 0 <= k < |line| ==> line[k] != '\0') &&
                           |Tokens(Buffer(line), 0)| >= MAXARGS
  {
    var args := seq(MAXARGS, _ => Plain("a"));
    OneLetterWords(args);
    TokensOfTyped(args);
    var line := Typed(args);
    TypedHasNoNul(args);
    assert |Tokens(Buffer(line), 0)| == MAXARGS;
  }

  /** Arguments with no NUL give a line with no NUL. */
  lemma TypedHasNoNul(args: seq<Arg>)
    requires |args| > 0
    requires forall k :: 0 <= k < |Spaced(args)| ==> Spaced(args)[k] != '\0'
    ensures forall k :: 0 <= k < |Typed(args)| ==> Typed(args)[k] != '\0'
  {
  }

  lemma {:induction false} OneLetterWords(args: seq<Arg>)
    requires forall i :: 0 <= i < |args| ==> args[i] == Plain("a")
    ensures |Spaced(args)| == 2 * |args|
    ensures forall k :: 0 <= k < |Spaced(args)| ==> Spaced(args)[k] != '\0'
    ensures forall i :: 0 <= i < |args| ==> WellFormed(args[i])
  {
    if args != [] {
      OneLetterWords(args[1..]);
      var r := Spaced(args[1..]);
      assert Spaced(args) == "a " + r;
      forall k | 0 <= k < |Spaced(args)|
        ensures Spaced(args)[k] != '\0'
      {
        if k >= 2 {
          assert Spaced(args)[k] == r[k - 2];
        }
      }
    }
  }

  // ---------------------------------------------------------------------
  // parseline on its buffer

  /** From position `from` on, the array a holds b followed by the NUL
      that ends it; b has no NUL of its own. */
  ghost predicate Holds(a: array<char>, b: string, from: nat)
    reads a
  {
    && from <= |b| < a.Length
    && (forall k :: from <= k < |b| ==> a[k] == b[k])
    && a[|b|] == '\0'
    && (forall k :: 0 <= k < |b| ==> b[k] != '\0')
  }

  /** The loop that advances over spaces, stopping at the NUL. */
  method SkipSpacesAt(a: array<char>, pos: nat, ghost b: string) returns (r: nat)
    requires Holds(a, b, pos)
    ensures r == SkipSpaces(b, pos)
  {
    r := pos;
    while a[r] != '\0' && a[r] == ' '
      invariant pos <= r <= |b|
      invariant SkipSpaces(b, r) == SkipSpaces(b, pos)
      decreases |b| - r
    {
      r := r + 1;
    }
  }

  /** strchr on the NUL-terminated text from `from` on. */
  method StrChr(a: array<char>, from: nat, c: char, ghost b: string) returns (r: Option<nat>)
    requires Holds(a, b, from)
    requires c != '\0'
    ensures r == IndexOf(b, from, c)
  {
    var j := from;
    while a[j] != '\0' && a[j] != c
      invariant from <= j <= |b|
      invariant IndexOf(b, j, c) == IndexOf(b, from, c)
      decreases |b| - j
    {
      j := j + 1;
    }
    if a[j] == c {
      r := Some(j);
    } else {
      r := None;
    }
  }

  /** The step parseline repeats before and after each argument: skip
      spaces, test for a quote, search for the delimiter. */
  method NextTokenAt(a: array<char>, pos: nat, ghost b: string) returns (r: Option<Span>)
    requires Holds(a, b, pos)
    ensures r == NextToken(b, pos)
  {
    var p := SkipSpacesAt(a, pos, b);
    if a[p] == '\'' {
      var d := StrChr(a, p + 1, '\'', b);
      r := if d.Some? then Some(Span(p + 1, d.value)) else None;
    } else {
      var d := StrChr(a, p, ' ', b);
      r := if d.Some? then Some(Span(p, d.value)) else None;
    }
  }

  /** The copy parseline works on: strcpy into the MAXLINE buffer, then
      the last character overwritten with a space. */
  method CopyLine(line: string) returns (a: array<char>)
    requires 1 <= |line| < MAXLINE
    requires forall k :: 0 <= k < |line| ==> line[k] != '\0'
    ensures fresh(a) && a.Length == MAXLINE
    ensures Holds(a, Buffer(line), 0)
  {
    a := new char[MAXLINE];
    var n := |line|;
    var i := 0;
    while i < n
      invariant 0 <= i <= n
      invariant forall k :: 0 <= k < i ==> a[k] == line[k]
    {
      a[i] := line[i];
      i := i + 1;
    }
    a[n] := '\0';
    a[n - 1] := ' ';
  }

  /** The buffer holds w in sp, with a NUL right after it: what the
      argv pointer at sp.start reads as a C string. */
  ghost predicate EndsAt(a: array<char>, sp: Span, w: string)
    reads a
  {
    sp.start <= sp.end < a.Length && a[sp.end] == '\0' && a[sp.start..sp.end] == w
  }

  /** The first n cells of the buffer are as in before. */
  ghost predicate KeepsBefore(a: array<char>, before: seq<char>, n: nat)
    reads a
  {
    n <= a.Length && n <= |before| && a[..n] == before[..n]
  }

  /** Ends the argument at sp with a NUL and takes its text; the buffer
      still holds the line after it. */
  method CutArg(a: array<char>, ghost b: string, pos: nat, sp: Span) returns (w: string)
    requires Holds(a, b, pos)
    requires pos <= sp.start <= sp.end < |b|
    modifies a
    ensures w == b[sp.start..sp.end]
    ensures EndsAt(a, sp, w) && KeepsBefore(a, old(a[..]), sp.end)
    ensures Holds(a, b, sp.end + 1)
  {
    a[sp.end] := '\0';
    w := a[sp.start..sp.end];
  }

  /** The loop of parseline: cuts each argument out of the buffer with a
      NUL, stores it in argv and counts it; all are the arguments b
      holds. */
  method SplitArgs(a: array<char>, ghost b: string, ghost all: seq<string>, argv: array<Option<string>>)
    returns (argc: nat)
    requires Holds(a, b, 0) && all == Tokens(b, 0)
    requires argv.Length == MAXARGS && |all| < MAXARGS
    modifies a, argv
    ensures argc == |all|
    ensures forall j :: 0 <= j < argc ==> argv[j] == Some(all[j])
    ensures forall j :: argc <= j < MAXARGS ==> argv[j] == old(argv[j])
  {
    var pos: nat := 0;
    argc := 0;
    var next := NextTokenAt(a, 0, b);
    while next.Some?
      invariant pos <= |b| && Holds(a, b, pos)
      invariant next == NextToken(b, pos)
      invariant argc <= |all| && all[argc..] == Tokens(b, pos)
      invariant forall j :: 0 <= j < argc ==> argv[j] == Some(all[j])
      invariant forall j :: argc <= j < MAXARGS ==> argv[j] == old(argv[j])
      decreases |b| - pos
    {
      var sp := next.value;
      var w := CutArg(a, b, pos, sp);
      TokensAdvance(b, pos, sp, all[argc..], w);
      argv[argc] := Some(w);
      argc := argc + 1;
      pos := sp.end + 1;
      next := NextTokenAt(a, pos, b);
    }
    assert Tokens(b, pos) == [];
  }

  /**
   * parseline: fills argv with the arguments, a None after the last one,
   * and returns the background flag. The line is a C string that fits
   * the MAXLINE buffer and must have fewer than MAXARGS arguments, or
   * argv overflows (see ArgvOverflow).
   */
  method ParseLine(line: string, argv: array<Option<string>>) returns (bg: bool)
    requires 1 <= |line| < MAXLINE
    requires forall k :: 0 <= k < |line| ==> line[k] != '\0'
    requires argv.Length == MAXARGS
    requires |Tokens(Buffer(line), 0)| < MAXARGS
    modifies argv
    ensures bg == ParseResult(line).bg
    ensures forall k :: 0 <= k < |ParseResult(line).argv| ==> argv[k] == Some(ParseResult(line).argv[k])
    ensures forall k :: |ParseResult(line).argv| <= k <= |Tokens(Buffer(line), 0)| ==> argv[k] == None
    ensures forall k :: |Tokens(Buffer(line), 0)| < k < MAXARGS ==> argv[k] == old(argv[k])
  {
    var a := CopyLine(line);
    ghost var toks := Tokens(Buffer(line), 0);
    ParseResultOf(line, toks);
    var argc := SplitArgs(a, Buffer(line), toks, argv);
    argv[argc] := None;
    if argc == 0 {
      return true;
    }
    var last := argv[argc - 1].value;
    bg := |last| > 0 && last[0] == '&';
    if bg {
      argc := argc - 1;
      argv[argc] := None;
    }
  }

  // ---------------------------------------------------------------------
  // builtin_cmd

  /** The names of the built-in commands, in the order builtin_cmd tries
      them. */
  const BuiltinNames: seq<string> := ["quit", "fg", "bg", "jobs"]

  /** builtin_cmd: is the first argument the name of a built-in command? */
  method BuiltinCmd(argv: seq<string>) returns (builtin: bool)
    requires |argv| >= 1
    ensures builtin <==> argv[0] == "quit" || argv[0] == "fg" || argv[0] == "bg" || argv[0] == "jobs"
  {
    var i := 0;
    while i < |BuiltinNames|
      invariant 0 <= i <= |BuiltinNames|
      invariant forall k :: 0 <= k < i ==> BuiltinNames[k] != argv[0]
    {
      if BuiltinNames[i] == argv[0] {
        return true;
      }
      i := i + 1;
    }
    assert BuiltinNames[0] != argv[0] && BuiltinNames[1] != argv[0];
    assert BuiltinNames[2] != argv[0] && BuiltinNames[3] != argv[0];
    return false;
  }
}
