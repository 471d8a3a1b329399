/** The comment and trailing-comma remover for JSON with comments.

    The method is the character machine of the source. Its specification is
    stated on pieces: the text is cut into string literals, comments and single
    characters, and the pieces that are comments or trailing commas are left out. */
module Jsonc {

  datatype Piece =
    | Literal(text: string)   // from a quote to its closing quote, or to the end
    | LineComment(text: string)
    | BlockComment(text: string)
    | Single(c: char)

  /** str.isspace */
  predicate IsSpace(c: char) {
    || '\t' <= c <= '\r' || '\U{1c}' <= c <= ' ' || c == '\U{85}' || c == '\U{a0}' || c == '\U{1680}'
    || '\U{2000}' <= c <= '\U{200a}' || c == '\U{2028}' || c == '\U{2029}' || c == '\U{202f}'
    || c == '\U{205f}' || c == '\U{3000}'
  }

  predicate IsBreak(c: char) { c == '\r' || c == '\n' }

  predicate IsCloser(c: char) { c == ']' || c == '}' }

  // --------------------------------------------------------------- pieces

  /** How much of s still belongs to a string literal that is open before it. */
  function LiteralRest(s: string, escaped: bool): (n: nat)
    ensures n <= |s|
  {
    if s == [] then 0
    else if escaped then 1 + LiteralRest(s[1..], false)
    else if s[0] == '\\' then 1 + LiteralRest(s[1..], true)
    else if s[0] == '"' then 1
    else 1 + LiteralRest(s[1..], false)
  }

  function LineRest(s: string): (n: nat)
    ensures n <= |s|
  {
    if s == [] || IsBreak(s[0]) then 0 else 1 + LineRest(s[1..])
  }

  function BlockRest(s: string): (n: nat)
    ensures n <= |s|
  {
    if |s| < 2 then |s|
    else if s[0] == '*' && s[1] == '/' then 2
    else 1 + BlockRest(s[1..])
  }

  predicate OpensLine(s: string) { |s| >= 2 && s[0] == '/' && s[1] == '/' }

  predicate OpensBlock(s: string) { |s| >= 2 && s[0] == '/' && s[1] == '*' }

  function FirstPiece(s: string): (p: Piece)
    requires s != []
    ensures Text(p) != [] && Text(p) <= s
  {
    if s[0] == '"' then Literal(s[..1 + LiteralRest(s[1..], false)])
    else if OpensLine(s) then LineComment(s[..2 + LineRest(s[2..])])
    else if OpensBlock(s) then BlockComment(s[..2 + BlockRest(s[2..])])
    else Single(s[0])
  }

  function Text(p: Piece): string {
    match p
    case Single(c) => [c]
    case _ => p.text
  }

  function Pieces(s: string): seq<Piece> {
    if s == [] then [] else [FirstPiece(s)] + Pieces(s[|Text(FirstPiece(s))|..])
  }

  function Render(ps: seq<Piece>): string {
    if ps == [] then [] else Text(ps[0]) + Render(ps[1..])
  }

  predicate IsComment(p: Piece) { p.LineComment? || p.BlockComment? }

  /** Only white space separates what precedes from a closing bracket. */
  predicate BeforeCloser(ps: seq<Piece>) {
    ps != [] && ps[0].Single? && (IsCloser(ps[0].c) || (IsSpace(ps[0].c) && BeforeCloser(ps[1..])))
  }

  predicate Dropped(p: Piece, rest: seq<Piece>) {
    IsComment(p) || (p == Single(',') && BeforeCloser(rest))
  }

  function Kept(ps: seq<Piece>): seq<Piece> {
    if ps == [] then []
    else (if Dropped(ps[0], ps[1..]) then [] else [ps[0]]) + Kept(ps[1..])
  }

  function Strip(s: string): string { Render(Kept(Pieces(s))) }

  // ------------------------------------------------------------ the method

  /** What the source appends from here on when a literal is open. */
  function StripInLiteral(s: string, escaped: bool): string {
    var n := LiteralRest(s, escaped);
    s[..n] + Strip(s[n..])
  }

  predicate SpaceThenCloser(s: string) {
    s != [] && (IsCloser(s[0]) || (IsSpace(s[0]) && SpaceThenCloser(s[1..])))
  }

  lemma {:induction false} LookaheadSeesPieces(s: string)
    ensures SpaceThenCloser(s) == BeforeCloser(Pieces(s))
  {
    if s != [] && IsSpace(s[0]) {
      assert FirstPiece(s) == Single(s[0]);
      assert Pieces(s)[1..] == Pieces(s[1..]);
      LookaheadSeesPieces(s[1..]);
    }
  }

  lemma StripFirst(s: string)
    requires s != []
    ensures var p := FirstPiece(s);
            var rest := s[|Text(p)|..];
            Strip(s) == (if Dropped(p, Pieces(rest)) then [] else Text(p)) + Strip(rest)
  {
    var p := FirstPiece(s);
    var rest := s[|Text(p)|..];
    assert Pieces(s)[1..] == Pieces(rest);
    if Dropped(p, Pieces(rest)) {
      assert Kept(Pieces(s)) == Kept(Pieces(rest));
    } else {
      assert Kept(Pieces(s))[1..] == Kept(Pieces(rest));
    }
  }

  /** One step of the machine outside a literal. */
  lemma StripStep(s: string)
    requires s != []
    ensures Strip(s)
         == if s[0] == '"' then ['"'] + StripInLiteral(s[1..], false)
            else if OpensLine(s) then Strip(s[2 + LineRest(s[2..])..])
            else if OpensBlock(s) then Strip(s[2 + BlockRest(s[2..])..])
            else if s[0] == ',' && SpaceThenCloser(s[1..]) then Strip(s[1..])
            else [s[0]] + Strip(s[1..])
  {
    hide Strip, Pieces;
    StripFirst(s);
    if s[0] == '"' {
      var n := LiteralRest(s[1..], false);
      assert s[..1 + n] == ['"'] + s[1..][..n];
      assert s[1..][n..] == s[1 + n..];
    } else {
      LookaheadSeesPieces(s[1..]);
    }
  }

  function AfterQuoted(s: string, escaped: bool): string
    requires s != []
  {
    if escaped then StripInLiteral(s[1..], false)
    else if s[0] == '\\' then StripInLiteral(s[1..], true)
    else if s[0] == '"' then Strip(s[1..])
    else StripInLiteral(s[1..], false)
  }

  /** One step inside a literal. */
  lemma LiteralStep(s: string, escaped: bool)
    requires s != []
    ensures StripInLiteral(s, escaped)
         == [s[0]] + AfterQuoted(s, escaped)
  {
    hide Strip;
    var n := LiteralRest(s, escaped);
    if !escaped && s[0] == '"' {
      assert s[..1] == [s[0]];
    } else {
      var inner := s[1..];
      assert n - 1 == LiteralRest(inner, !escaped && s[0] == '\\');
      assert s[n..] == inner[n - 1..];
      assert s[..n] == [s[0]] + inner[..n - 1];
      assert StripInLiteral(s, escaped) == [s[0]] + (inner[..n - 1] + Strip(inner[n - 1..]));
    }
  }

  lemma Appended(output: string, c: char, rest: string, total: string)
    requires output + ([c] + rest) == total
    ensures (output + [c]) + rest == total
  {
    assert output + ([c] + rest) == (output + [c]) + rest;
  }

  lemma StripEnd()
    ensures Strip([]) == [] && StripInLiteral([], false) == [] && StripInLiteral([], true) == []
  {
  }

  method WithoutJsoncComments(source: string) returns (output: string)
    ensures output == Strip(source)
  {
    hide Strip, StripInLiteral, LineRest, BlockRest, SpaceThenCloser;
    StripEnd();
    output := [];
    var quoted, escaped := false, false;
    var index := 0;
    assert source[0..] == source;
    while index < |source|
      invariant index <= |source|
      invariant escaped ==> quoted
      invariant output + (if quoted then StripInLiteral(source[index..], escaped) else Strip(source[index..]))
             == Strip(source)
    {
      var current := source[index];
      ghost var tail := source[index..];
      assert tail[1..] == source[index + 1..];
      if quoted {
        LiteralStep(tail, escaped);
        Appended(output, current, AfterQuoted(tail, escaped), Strip(source));
        output := output + [current];
        if escaped {
          escaped := false;
        } else if current == '\\' {
          escaped := true;
        } else if current == '"' {
          quoted := false;
        }
        index := index + 1;
      } else {
        StripStep(tail);
        if current == '"' {
          Appended(output, current, StripInLiteral(tail[1..], false), Strip(source));
          quoted := true;
          output := output + [current];
          index := index + 1;
        } else if current == '/' && index + 1 < |source| && source[index + 1] == '/' {
          assert tail[2..] == source[index + 2..];
          var end := SkipLine(source, index + 2);
          assert tail[2 + LineRest(tail[2..])..] == source[end..];
          index := end;
        } else if current == '/' && index + 1 < |source| && source[index + 1] == '*' {
          assert tail[2..] == source[index + 2..];
          var end := SkipBlock(source, index + 2);
          assert tail[2 + BlockRest(tail[2..])..] == source[end..];
          index := end;
        } else if current == ',' {
          var trailing := LooksTrailing(source, index + 1);
          if !trailing {
            Appended(output, current, Strip(tail[1..]), Strip(source));
            output := output + [current];
          }
          index := index + 1;
        } else {
          Appended(output, current, Strip(tail[1..]), Strip(source));
          output := output + [current];
          index := index + 1;
        }
      }
    }
    assert source[index..] == [];
  }

  method SkipLine(source: string, start: nat) returns (index: nat)
    requires start <= |source|
    ensures index == start + LineRest(source[start..]) <= |source|
  {
    index := start;
    while index < |source| && !IsBreak(source[index])
      invariant start <= index <= |source|
      invariant index + LineRest(source[index..]) == start + LineRest(source[start..])
    {
      assert source[index..][1..] == source[index + 1..];
      index := index + 1;
    }
  }

  method SkipBlock(source: string, start: nat) returns (index: nat)
    requires start <= |source|
    ensures index == start + BlockRest(source[start..]) <= |source|
  {
    index := start;
    while index + 1 < |source| && source[index..index + 2] != "*/"
      invariant start <= index <= |source|
      invariant index + BlockRest(source[index..]) == start + BlockRest(source[start..])
    {
      assert source[index..][1..] == source[index + 1..];
      assert source[index..index + 2] == [source[index], source[index + 1]];
      index := index + 1;
    }
    assert index + 1 < |source| ==> source[index..index + 2] == [source[index], source[index + 1]];
    index := if index + 2 < |source| then index + 2 else |source|;
  }

  method LooksTrailing(source: string, start: nat) returns (trailing: bool)
    requires start <= |source|
    ensures trailing == SpaceThenCloser(source[start..])
  {
    var lookahead := start;
    while lookahead < |source| && IsSpace(source[lookahead])
      invariant start <= lookahead <= |source|
      invariant SpaceThenCloser(source[lookahead..]) == SpaceThenCloser(source[start..])
    {
      assert source[lookahead..][1..] == source[lookahead + 1..];
      lookahead := lookahead + 1;
    }
    trailing := lookahead < |source| && IsCloser(source[lookahead]);
  }

  // ------------------------------------- the output, read once more

  /** s ends exactly where a literal that is open before it closes. */
  predicate Closes(s: string, escaped: bool) {
    s != [] && (if escaped then Closes(s[1..], false)
                else if s[0] == '\\' then Closes(s[1..], true)
                else if s[0] == '"' then |s| == 1
                else Closes(s[1..], false))
  }

  predicate IsLiteral(text: string, last: bool) {
    && text != [] && text[0] == '"'
    && LiteralRest(text[1..], false) == |text| - 1
    && (last || Closes(text[1..], false))
  }

  /** The pieces a text can be cut into: a slash that stands alone is not
      followed by a character that would make it a comment. */
  predicate Coherent(ps: seq<Piece>) {
    ps == [] || (Coherent(ps[1..]) && match ps[0]
      case Literal(text) => IsLiteral(text, |ps| == 1)
      case Single(c) => c != '"' && (c == '/' ==> |ps| == 1 || HarmlessAfterSlash(ps[1]))
      case _ => true)
  }

  predicate HarmlessAfterSlash(p: Piece) {
    p.Literal? || (p.Single? && p.c != '/' && p.c != '*')
  }

  predicate CommentFree(ps: seq<Piece>) {
    forall p <- ps :: !IsComment(p)
  }

  lemma {:induction false} LiteralCut(s: string, escaped: bool)
    ensures var n := LiteralRest(s, escaped);
            LiteralRest(s[..n], escaped) == n && (n == |s| || Closes(s[..n], escaped))
  {
    if s != [] {
      var n := LiteralRest(s, escaped);
      var next := if escaped then false else s[0] == '\\';
      if escaped || s[0] != '"' {
        LiteralCut(s[1..], next);
        assert s[..n][1..] == s[1..][..n - 1];
      }
    }
  }

  lemma {:induction false} PiecesCoherent(s: string)
    ensures Coherent(Pieces(s)) && Render(Pieces(s)) == s
    decreases |s|
  {
    if s != [] {
      var p := FirstPiece(s);
      var rest := s[|Text(p)|..];
      PiecesCoherent(rest);
      assert Pieces(s)[1..] == Pieces(rest);
      assert Text(p) + rest == s;
      if p.Literal? {
        LiteralCut(s[1..], false);
        var n := LiteralRest(s[1..], false);
        assert s[..1 + n][1..] == s[1..][..n];
      }
    }
  }

  /** A comma that is dropped uncovers white space or a bracket, nothing else. */
  lemma KeptHead(ps: seq<Piece>)
    requires ps != [] && HarmlessAfterSlash(ps[0])
    ensures Kept(ps) != [] && HarmlessAfterSlash(Kept(ps)[0])
  {
    if Dropped(ps[0], ps[1..]) {
      assert BeforeCloser(ps[1..]);
      assert Kept(ps) == Kept(ps[1..]);
      assert !Dropped(ps[1..][0], ps[1..][1..]);
    }
  }

  lemma {:induction false} KeptCoherent(ps: seq<Piece>)
    requires Coherent(ps)
    ensures Coherent(Kept(ps)) && CommentFree(Kept(ps))
    ensures |Kept(ps)| <= |ps|
  {
    if ps != [] {
      var rest := ps[1..];
      KeptCoherent(rest);
      if Dropped(ps[0], rest) {
        assert Kept(ps) == Kept(rest);
      } else {
        assert Kept(ps)[1..] == Kept(rest);
        if ps[0] == Single('/') && rest != [] {
          KeptHead(rest);
        }
      }
    }
  }

  lemma {:induction false} ClosedLiteralEnds(text: string, more: string, escaped: bool)
    requires Closes(text, escaped)
    ensures LiteralRest(text + more, escaped) == |text|
  {
    assert (text + more)[1..] == text[1..] + more;
    if |text| > 1 {
      ClosedLiteralEnds(text[1..], more, if escaped then false else text[0] == '\\');
    } else {
      assert text[1..] == [];
    }
  }

  /** The first piece read is the first piece written. */
  lemma FirstReadBack(ps: seq<Piece>)
    requires ps != [] && Coherent(ps) && !IsComment(ps[0])
    ensures Render(ps) != [] && FirstPiece(Render(ps)) == ps[0]
  {
    var p, rest := ps[0], Render(ps[1..]);
    var s := Render(ps);
    if p.Literal? {
      assert s[1..] == p.text[1..] + rest;
      if |ps| > 1 {
        ClosedLiteralEnds(p.text[1..], rest, false);
      } else {
        assert s == p.text;
      }
      assert s[..|p.text|] == p.text;
    } else if p.c == '/' && |ps| > 1 {
      assert s[1] == Text(ps[1])[0];
    }
  }

  /** Coherent pieces without comments survive being written and read. */
  lemma {:induction false} ReadBack(ps: seq<Piece>)
    requires Coherent(ps) && CommentFree(ps)
    ensures Pieces(Render(ps)) == ps
  {
    if ps != [] {
      assert !IsComment(ps[0]);
      FirstReadBack(ps);
      ReadBack(ps[1..]);
      assert Render(ps)[|Text(ps[0])|..] == Render(ps[1..]);
    }
  }

  /** Reading the output finds exactly the pieces that were kept: nothing left
      out has glued its neighbours into a new comment or literal. */
  lemma Rescan(s: string)
    ensures Pieces(Strip(s)) == Kept(Pieces(s))
  {
    PiecesCoherent(s);
    KeptCoherent(Pieces(s));
    ReadBack(Kept(Pieces(s)));
  }

  function Literals(ps: seq<Piece>): seq<string> {
    if ps == [] then []
    else (if ps[0].Literal? then [ps[0].text] else []) + Literals(ps[1..])
  }

  /** The output has no comment, and its string literals are those of the source
      outside comments, unchanged and in order. */
  lemma LiteralsPreserved(s: string)
    ensures CommentFree(Pieces(Strip(s)))
    ensures Literals(Pieces(Strip(s))) == Literals(Pieces(s))
  {
    Rescan(s);
    PiecesCoherent(s);
    KeptCoherent(Pieces(s));
    KeptLiterals(Pieces(s));
  }

  lemma {:induction false} KeptLiterals(ps: seq<Piece>)
    ensures Literals(Kept(ps)) == Literals(ps)
  {
    if ps != [] {
      KeptLiterals(ps[1..]);
      if Dropped(ps[0], ps[1..]) {
        assert Kept(ps) == Kept(ps[1..]);
      } else {
        assert Kept(ps)[1..] == Kept(ps[1..]);
      }
    }
  }

  // --------------------------------------------------- further passes

  function WithoutCommas(ps: seq<Piece>): seq<Piece> {
    if ps == [] then []
    else (if ps[0] == Single(',') then [] else [ps[0]]) + WithoutCommas(ps[1..])
  }

  function WithoutComments(ps: seq<Piece>): seq<Piece> {
    if ps == [] then []
    else (if IsComment(ps[0]) then [] else [ps[0]]) + WithoutComments(ps[1..])
  }

  /** The unquoted commas outside comments. */
  function Commas(ps: seq<Piece>): nat {
    if ps == [] then 0 else (if ps[0] == Single(',') then 1 else 0) + Commas(ps[1..])
  }

  /** A text that a pass leaves alone. */
  predicate Clean(ps: seq<Piece>) {
    forall i :: 0 <= i < |ps| ==> !Dropped(ps[i], ps[i + 1..])
  }

  lemma {:induction false} KeptDropsOnly(ps: seq<Piece>)
    ensures WithoutCommas(Kept(ps)) == WithoutCommas(WithoutComments(ps))
  {
    if ps != [] {
      var rest := ps[1..];
      KeptDropsOnly(rest);
      assert WithoutComments(ps) == (if IsComment(ps[0]) then [] else [ps[0]]) + WithoutComments(rest);
      if !IsComment(ps[0]) {
        assert WithoutComments(ps)[1..] == WithoutComments(rest);
      } else {
        assert WithoutComments(ps) == WithoutComments(rest);
      }
      if Dropped(ps[0], rest) {
        assert Kept(ps) == Kept(rest);
      } else {
        assert Kept(ps)[1..] == Kept(rest);
      }
    }
  }

  lemma {:induction false} NoCommentsToDrop(ps: seq<Piece>)
    requires CommentFree(ps)
    ensures WithoutComments(ps) == ps
  {
    if ps != [] {
      assert !IsComment(ps[0]);
      NoCommentsToDrop(ps[1..]);
    }
  }

  lemma {:induction false} CleanIsKept(ps: seq<Piece>)
    requires Clean(ps)
    ensures Kept(ps) == ps
  {
    if ps != [] {
      assert !Dropped(ps[0], ps[0 + 1..]);
      CleanTail(ps);
      CleanIsKept(ps[1..]);
    }
  }

  lemma CleanTail(ps: seq<Piece>)
    requires ps != [] && !Dropped(ps[0], ps[1..])
    ensures Clean(ps) <==> Clean(ps[1..])
  {
    var rest := ps[1..];
    forall i | 0 <= i < |rest| ensures Dropped(rest[i], rest[i + 1..]) == Dropped(ps[i + 1], ps[i + 1 + 1..]) {
      assert rest[i + 1..] == ps[i + 1 + 1..];
    }
    if Clean(rest) {
      forall i | 0 <= i < |ps| ensures !Dropped(ps[i], ps[i + 1..]) {
        if i > 0 {
          assert !Dropped(rest[i - 1], rest[i - 1 + 1..]);
        }
      }
    }
  }

  lemma {:induction false} KeptDropsCommas(ps: seq<Piece>)
    ensures Commas(Kept(ps)) <= Commas(ps)
    ensures CommentFree(ps) && !Clean(ps) ==> Commas(Kept(ps)) < Commas(ps)
  {
    if ps != [] {
      var rest := ps[1..];
      KeptDropsCommas(rest);
      if Dropped(ps[0], rest) {
        assert Kept(ps) == Kept(rest);
        assert ps[0] in ps;
      } else {
        assert Kept(ps)[1..] == Kept(rest);
        CleanTail(ps);
      }
    }
  }

  /** A second pass removes unquoted commas and nothing else. */
  lemma SecondPass(s: string)
    ensures WithoutCommas(Pieces(Strip(Strip(s)))) == WithoutCommas(Pieces(Strip(s)))
  {
    Rescan(Strip(s));
    LiteralsPreserved(s);
    KeptDropsOnly(Pieces(Strip(s)));
    NoCommentsToDrop(Pieces(Strip(s)));
  }

  /** A pass changes nothing exactly when there is no comment and no comma
      that only white space separates from a closing bracket. */
  lemma UnchangedExactly(s: string)
    ensures Strip(s) == s <==> Clean(Pieces(s))
  {
    PiecesCoherent(s);
    if Clean(Pieces(s)) {
      CleanIsKept(Pieces(s));
    }
    if Strip(s) == s {
      LiteralsPreserved(s);
      Rescan(s);
      KeptDropsCommas(Pieces(s));
    }
  }

  function Passes(s: string, n: nat): string
    decreases n
  {
    if n == 0 then s else Passes(Strip(s), n - 1)
  }

  lemma {:induction false} CommentFreeSettles(s: string, n: nat)
    requires CommentFree(Pieces(s)) && Commas(Pieces(s)) <= n
    ensures Strip(Passes(s, n)) == Passes(s, n)
    decreases n
  {
    hide Strip, Pieces, Kept, Clean, Commas, CommentFree, Literals;
    UnchangedExactly(s);
    KeptDropsCommas(Pieces(s));
    if Clean(Pieces(s)) {
      FixedPointStays(s, n);
    } else {
      Rescan(s);
      LiteralsPreserved(s);
      CommentFreeSettles(Strip(s), n - 1);
    }
  }

  lemma {:induction false} FixedPointStays(s: string, n: nat)
    requires Strip(s) == s
    ensures Passes(s, n) == s
  {
    if n > 0 {
      FixedPointStays(s, n - 1);
    }
  }

  /** One pass more than there are unquoted commas outside comments always
      reaches a text that has neither comments nor trailing commas. */
  lemma PassesSettle(s: string, n: nat)
    requires n > Commas(Pieces(s))
    ensures Strip(Passes(s, n)) == Passes(s, n) && Clean(Pieces(Passes(s, n)))
  {
    Rescan(s);
    LiteralsPreserved(s);
    KeptDropsCommas(Pieces(s));
    CommentFreeSettles(Strip(s), n - 1);
    UnchangedExactly(Passes(s, n));
  }

  /** One pass is not enough: two trailing commas need two. */
  lemma NotIdempotent()
    ensures Strip(",,]") == ",]" && Strip(",]") == "]"
  {
    StripStep("]");
    StripStep(",]");
    assert ",]"[1..] == "]" && "]"[1..] == [] && ",,]"[1..] == ",]";
    StripStep(",,]");
  }

  /** One pass leaves ps starting with white space and a closing bracket: what
      stands before the bracket is white space, comments, or one trailing comma. */
  predicate UncoversCloser(ps: seq<Piece>) {
    ps != [] && match ps[0]
                case LineComment(_) => UncoversCloser(ps[1..])
                case BlockComment(_) => UncoversCloser(ps[1..])
                case Literal(_) => false
                case Single(c) =>
                  IsCloser(c) || (IsSpace(c) && UncoversCloser(ps[1..])) || (c == ',' && BeforeCloser(ps[1..]))
  }

  /** A comma that one pass keeps although it removes all that hid a closing bracket. */
  predicate Shielded(p: Piece, rest: seq<Piece>) {
    p == Single(',') && !BeforeCloser(rest) && UncoversCloser(rest)
  }

  ghost predicate AnyShielded(ps: seq<Piece>) {
    exists i :: 0 <= i < |ps| && Shielded(ps[i], ps[i + 1..])
  }

  lemma {:induction false} KeptBeforeCloser(ps: seq<Piece>)
    ensures BeforeCloser(Kept(ps)) <==> UncoversCloser(ps)
    ensures BeforeCloser(ps) ==> UncoversCloser(ps)
  {
    if ps != [] {
      var rest := ps[1..];
      KeptBeforeCloser(rest);
      if Dropped(ps[0], rest) {
        assert Kept(ps) == Kept(rest);
      } else {
        assert Kept(ps)[0] == ps[0] && Kept(ps)[1..] == Kept(rest);
      }
    }
  }

  lemma AnyShieldedTail(ps: seq<Piece>)
    requires ps != []
    ensures AnyShielded(ps) <==> Shielded(ps[0], ps[1..]) || AnyShielded(ps[1..])
  {
    var rest := ps[1..];
    if i :| 0 <= i < |ps| && Shielded(ps[i], ps[i + 1..]) {
      if i > 0 {
        assert rest[i - 1] == ps[i] && rest[i - 1 + 1..] == ps[i + 1..];
      }
    }
    if i :| 0 <= i < |rest| && Shielded(rest[i], rest[i + 1..]) {
      assert rest[i] == ps[i + 1] && rest[i + 1..] == ps[i + 1 + 1..];
    }
    if Shielded(ps[0], rest) {
      assert rest == ps[0 + 1..];
    }
  }

  lemma {:induction false} KeptCleanExactly(ps: seq<Piece>)
    ensures Clean(Kept(ps)) <==> !AnyShielded(ps)
  {
    if ps != [] {
      var rest := ps[1..];
      KeptCleanExactly(rest);
      KeptBeforeCloser(rest);
      AnyShieldedTail(ps);
      if Dropped(ps[0], rest) {
        assert Kept(ps) == Kept(rest);
      } else {
        assert Kept(ps)[0] == ps[0] && Kept(ps)[1..] == Kept(rest);
        if !Dropped(ps[0], Kept(rest)) {
          CleanTail(Kept(ps));
        } else {
          assert Dropped(Kept(ps)[0], Kept(ps)[0 + 1..]);
        }
      }
    }
  }

  /** A second pass finds nothing to do exactly when no kept comma is separated from
      a closing bracket by a comment or a trailing comma, and white space, alone. */
  lemma IdempotentExactly(s: string)
    ensures Strip(Strip(s)) == Strip(s) <==> !AnyShielded(Pieces(s))
  {
    Rescan(s);
    UnchangedExactly(Strip(s));
    KeptCleanExactly(Pieces(s));
  }

  // --------------------------------------------- the output by characters

  /** str.isspace below 128: what JSON calls white space, and what only Python does. */
  lemma AsciiSpaces(c: char)
    requires c as int < 128
    ensures IsSpace(c) <==> c == ' ' || c == '\t' || c == '\n' || c == '\r' || c as int in {11, 12, 28, 29, 30, 31}
  {
  }

  lemma {:induction false} LineEnds(s: string, t: string)
    requires (forall c <- s :: c != '\r' && c != '\n') && (t == [] || t[0] == '\r' || t[0] == '\n')
    ensures LineRest(s + t) == |s|
  {
    if s == [] {
      assert s + t == t;
    } else {
      assert s[0] in s && (s + t)[1..] == s[1..] + t && forall c <- s[1..] :: c in s;
      LineEnds(s[1..], t);
    }
  }

  /** A line comment reaches up to the line break, or to the end, and goes. */
  lemma LineCommentGoes(s: string, t: string)
    requires (forall c <- s :: c != '\r' && c != '\n') && (t == [] || t[0] == '\r' || t[0] == '\n')
    ensures Strip(['/', '/'] + s + t) == Strip(t)
  {
    var all := ['/', '/'] + s + t;
    assert all[2..] == s + t;
    LineEnds(s, t);
    assert all[2 + |s|..] == t;
    hide Strip, LineRest, BlockRest;
    StripStep(all);
  }

  /** No block comment ends within s. */
  ghost predicate StaysOpen(s: string) {
    forall i | 0 <= i < |s| - 1 :: !(s[i] == '*' && s[i + 1] == '/')
  }

  lemma {:induction false} BlockEnds(s: string, t: string)
    requires StaysOpen(s + ['*'])
    ensures BlockRest(s + ['*', '/'] + t) == |s| + 2
  {
    var all := s + ['*', '/'] + t;
    if s != [] {
      assert all[1..] == s[1..] + ['*', '/'] + t;
      assert (s + ['*'])[0] == all[0];
      assert s == [s[0]] ==> all[1] == '*';
      assert |s| > 1 ==> all[1] == (s + ['*'])[1];
      assert !(all[0] == '*' && all[1] == '/');
      forall i | 0 <= i < |s[1..] + ['*']| - 1 ensures !((s[1..] + ['*'])[i] == '*' && (s[1..] + ['*'])[i + 1] == '/') {
        assert (s[1..] + ['*'])[i] == (s + ['*'])[i + 1] && (s[1..] + ['*'])[i + 1] == (s + ['*'])[i + 2];
      }
      BlockEnds(s[1..], t);
    }
  }

  lemma {:induction false} BlockStaysOpen(s: string)
    requires StaysOpen(s)
    ensures BlockRest(s) == |s|
  {
    if |s| >= 2 {
      assert s[0] == '*' ==> s[0 + 1] != '/';
      forall i | 0 <= i < |s[1..]| - 1 ensures !(s[1..][i] == '*' && s[1..][i + 1] == '/') {
        assert s[1..][i] == s[i + 1] && s[1..][i + 1] == s[i + 2];
      }
      BlockStaysOpen(s[1..]);
    }
  }

  /** A block comment reaches up to the first end mark after its opening, or to the
      end of the text, and goes. */
  lemma BlockCommentGoes(s: string, t: string)
    ensures StaysOpen(s + ['*']) ==> Strip(['/', '*'] + s + ['*', '/'] + t) == Strip(t)
    ensures StaysOpen(s) ==> Strip(['/', '*'] + s) == []
  {
    if StaysOpen(s + ['*']) {
      var all := ['/', '*'] + s + ['*', '/'] + t;
      assert all[2..] == s + ['*', '/'] + t;
      BlockEnds(s, t);
      assert all[2 + |s| + 2..] == t;
      hide Strip, LineRest, BlockRest;
      StripStep(all);
    }
    if StaysOpen(s) {
      var all := ['/', '*'] + s;
      assert all[2..] == s;
      BlockStaysOpen(s);
      assert all[|all|..] == [];
      StripStep(all);
      StripEnd();
    }
  }

  /** s is white space w, a closing bracket, and the rest. */
  predicate SplitsAtCloser(s: string, w: string, rest: string) {
    && s == w + rest && (forall c <- w :: IsSpace(c))
    && rest != [] && (rest[0] == ']' || rest[0] == '}')
  }

  ghost predicate ClosesNext(s: string) {
    exists w, rest :: SplitsAtCloser(s, w, rest)
  }

  lemma {:induction false} ClosesByLookahead(s: string)
    ensures ClosesNext(s) <==> SpaceThenCloser(s)
  {
    if s != [] {
      var tail := s[1..];
      ClosesByLookahead(tail);
      if IsCloser(s[0]) {
        assert SplitsAtCloser(s, "", s);
      } else if IsSpace(s[0]) {
        if w, rest :| SplitsAtCloser(tail, w, rest) {
          assert SplitsAtCloser(s, [s[0]] + w, rest);
        }
      }
      if w, rest :| SplitsAtCloser(s, w, rest) {
        if w != [] {
          assert w[0] in w && s[0] == w[0] && forall c <- w[1..] :: c in w;
          assert SplitsAtCloser(tail, w[1..], rest);
        }
      }
    }
  }

  /** A comma goes exactly when white space alone separates it from a closing bracket. */
  lemma CommaGoesExactly(t: string)
    ensures Strip("," + t) == if ClosesNext(t) then Strip(t) else "," + Strip(t)
  {
    assert ("," + t)[1..] == t;
    hide Strip;
    StripStep("," + t);
    ClosesByLookahead(t);
  }

  /** A string literal up to its closing quote: quotes inside are escaped. */
  ghost predicate LiteralBody(s: string, escaped: bool)
    decreases |s|
  {
    if s == [] then !escaped
    else if escaped then LiteralBody(s[1..], false)
    else s[0] != '"' && LiteralBody(s[1..], s[0] == '\\')
  }

  lemma {:induction false} LiteralEnds(s: string, t: string, escaped: bool)
    requires LiteralBody(s, escaped)
    ensures LiteralRest(s + ['"'] + t, escaped) == |s| + 1
  {
    var all := s + ['"'] + t;
    if s != [] {
      assert all[1..] == s[1..] + ['"'] + t;
      LiteralEnds(s[1..], t, if escaped then false else s[0] == '\\');
    }
  }

  lemma InLiteral(s: string, t: string)
    requires LiteralBody(s, false)
    ensures StripInLiteral(s + ['"'] + t, false) == s + ['"'] + Strip(t)
  {
    var inner := s + ['"'] + t;
    LiteralEnds(s, t, false);
    assert inner[..|s| + 1] == s + ['"'] && inner[|s| + 1..] == t;
    hide Strip, LiteralRest, LiteralBody;
  }

  /** A string literal stays as it is, whatever is in it. */
  lemma LiteralStays(s: string, t: string)
    requires LiteralBody(s, false)
    ensures Strip(['"'] + (s + ['"'] + t)) == ['"'] + (s + ['"'] + Strip(t))
  {
    var all := ['"'] + (s + ['"'] + t);
    assert all[1..] == s + ['"'] + t;
    InLiteral(s, t);
    hide Strip, StripInLiteral, LiteralBody;
    StripStep(all);
  }

  /** Every other character stays; a slash opens nothing unless a slash or a star follows. */
  lemma OthersStay(c: char, t: string)
    requires c != '"' && c != ',' && (c == '/' ==> t == [] || (t[0] != '/' && t[0] != '*'))
    ensures Strip([c] + t) == [c] + Strip(t)
  {
    var all := [c] + t;
    assert all[1..] == t && (t != [] ==> all[1] == t[0]);
    hide Strip;
    StripStep(all);
  }

  /** No quote ends within s: each is escaped. */
  ghost predicate NeverCloses(s: string, escaped: bool)
    decreases |s|
  {
    s != [] ==> if escaped then NeverCloses(s[1..], false) else s[0] != '"' && NeverCloses(s[1..], s[0] == '\\')
  }

  lemma {:induction false} UnclosedRest(s: string, escaped: bool)
    requires NeverCloses(s, escaped)
    ensures LiteralRest(s, escaped) == |s|
  {
    if s != [] {
      UnclosedRest(s[1..], if escaped then false else s[0] == '\\');
    }
  }

  /** A literal that is not closed stays up to the end of the text. */
  lemma UnclosedLiteralStays(s: string)
    requires NeverCloses(s, false)
    ensures Strip(['"'] + s) == ['"'] + s
  {
    UnclosedRest(s, false);
    assert (['"'] + s)[1..] == s && s[..|s|] == s && s[|s|..] == [] && s + [] == s;
    hide Strip, LiteralRest, NeverCloses;
    StripStep(['"'] + s);
    StripEnd();
  }
}
