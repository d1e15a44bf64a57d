/** `LIKE` patterns and their translation into OpenSearch `prefix` and `wildcard` values
    (src/pushdown.rs, `like_to_query` and `push_escaped`).

    The SQL side reads a pattern as a sequence of tokens and accepts a string by guessing how much
    of it each `%` swallows. The OpenSearch side walks the wildcard text character by character.
    `fold` maps a character to the representative of its case class: any equivalence on characters. */
module LikePatterns {
  import opened Prelude

  datatype Token = Lit(c: char) | One | Any

  // ----- SQL: what a pattern means

  /** The tokens of `p`, where `esc` makes the next character literal. A final `esc` with nothing
      after it yields no token; see `Dangling`. */
  function Tokens(p: string, esc: char): seq<Token> {
    if p == [] then []
    else if p[0] == esc then
      if |p| == 1 then [] else [Lit(p[1])] + Tokens(p[2..], esc)
    else
      [if p[0] == '%' then Any else if p[0] == '_' then One else Lit(p[0])] + Tokens(p[1..], esc)
  }

  /** The pattern ends in an escape character that escapes nothing. */
  predicate Dangling(p: string, esc: char) {
    p != [] && if p[0] == esc then |p| == 1 || Dangling(p[2..], esc) else Dangling(p[1..], esc)
  }

  ghost predicate Accepts(ts: seq<Token>, s: string, fold: char -> char) {
    if ts == [] then s == []
    else match ts[0]
      case Lit(c) => s != [] && fold(s[0]) == fold(c) && Accepts(ts[1..], s[1..], fold)
      case One => s != [] && Accepts(ts[1..], s[1..], fold)
      case Any => exists k :: 0 <= k <= |s| && Accepts(ts[1..], s[k..], fold)
  }

  /** The two readings of a dangling escape found in SQL systems. */
  datatype DanglingRule = RejectPattern | LiteralEscape

  ghost predicate SqlLike(p: string, esc: char, s: string, fold: char -> char, rule: DanglingRule) {
    if !Dangling(p, esc) then Accepts(Tokens(p, esc), s, fold)
    else rule == LiteralEscape && Accepts(Tokens(p, esc) + [Lit(esc)], s, fold)
  }

  // ----- OpenSearch: what a clause value means

  /** `*` matches any run, `?` any one character, `\` makes the next character literal. */
  predicate WildcardMatches(w: string, s: string, fold: char -> char)
    decreases |w| + |s|
  {
    if w == [] then s == []
    else if w[0] == '*' then
      WildcardMatches(w[1..], s, fold) || (s != [] && WildcardMatches(w, s[1..], fold))
    else if w[0] == '?' then
      s != [] && WildcardMatches(w[1..], s[1..], fold)
    else if w[0] == '\\' && |w| > 1 then
      s != [] && fold(w[1]) == fold(s[0]) && WildcardMatches(w[2..], s[1..], fold)
    else
      s != [] && fold(w[0]) == fold(s[0]) && WildcardMatches(w[1..], s[1..], fold)
  }

  predicate PrefixMatches(v: string, s: string, fold: char -> char) {
    |v| <= |s| && forall i :: 0 <= i < |v| ==> fold(v[i]) == fold(s[i])
  }

  datatype Clause = PrefixValue(value: string) | WildcardValue(value: string)

  predicate ClauseMatches(c: Clause, s: string, fold: char -> char) {
    match c
    case PrefixValue(v) => PrefixMatches(v, s, fold)
    case WildcardValue(w) => WildcardMatches(w, s, fold)
  }

  // ----- The translation

  function Escaped(c: char): string {
    if c == '*' || c == '?' || c == '\\' then ['\\', c] else [c]
  }

  /** A token sequence in OpenSearch wildcard syntax. */
  function Render(ts: seq<Token>): string {
    if ts == [] then []
    else Symbol(ts[0]) + Render(ts[1..])
  }

  function Symbol(t: Token): string {
    match t
    case Lit(c) => Escaped(c)
    case One => "?"
    case Any => "*"
  }

  /** The literal text before the first wildcard. */
  function LiteralHead(ts: seq<Token>): string {
    if ts == [] || !ts[0].Lit? then [] else [ts[0].c] + LiteralHead(ts[1..])
  }

  predicate HasWild(ts: seq<Token>) {
    ts != [] && (!ts[0].Lit? || HasWild(ts[1..]))
  }

  /** The only wildcard is one final `%`. */
  predicate OnlyFinalAny(ts: seq<Token>) {
    ts != [] && ts[|ts| - 1].Any? && forall i :: 0 <= i < |ts| - 1 ==> ts[i].Lit?
  }

  /** What the clause of a pattern is, stated on its tokens: the `prefix` form exactly when the only
      unescaped wildcard is the last character of the pattern and is a `%`. */
  function LikeClause(p: string): Clause {
    var ts := Tokens(p, '\\');
    if OnlyFinalAny(ts) && !Dangling(p, '\\') then PrefixValue(LiteralHead(ts))
    else WildcardValue(Render(ts))
  }

  lemma {:induction false} AppendCharacter(p: string, c: char, esc: char)
    ensures Dangling(p, esc) ==> Tokens(p + [c], esc) == Tokens(p, esc) + [Lit(c)] && !Dangling(p + [c], esc)
    ensures !Dangling(p, esc) ==> Tokens(p + [c], esc) == Tokens(p, esc) + Tokens([c], esc)
    ensures !Dangling(p, esc) ==> Dangling(p + [c], esc) == (c == esc)
    decreases |p|
  {
    var q := p + [c];
    if p == [] {
      assert q == [c];
    } else if p[0] == esc && |p| == 1 {
      assert q[2..] == [];
    } else {
      var n := TokenWidth(p, esc);
      TokensFrom(p, esc);
      TokensFrom(q, esc);
      assert q[n..] == p[n..] + [c];
      AppendCharacter(p[n..], c, esc);
    }
  }

  function TokenWidth(p: string, esc: char): nat
    requires p != []
  {
    if p[0] == esc then 2 else 1
  }

  function FirstToken(p: string, esc: char): Token
    requires p != [] && (p[0] == esc ==> |p| > 1)
  {
    if p[0] == esc then Lit(p[1]) else if p[0] == '%' then Any else if p[0] == '_' then One else Lit(p[0])
  }

  /** The prefix form is chosen exactly when the pattern ends in an unescaped `%` and nothing before
      it is an unescaped wildcard. Its value is then the literal text before the `%`. */
  lemma PrefixFormIff(p: string)
    ensures LikeClause(p).PrefixValue? <==>
            && |p| > 0 && p[|p| - 1] == '%'
            && !Dangling(p[..|p| - 1], '\\')
            && !HasWild(Tokens(p[..|p| - 1], '\\'))
    ensures LikeClause(p).PrefixValue? ==>
              Tokens(p[..|p| - 1], '\\') == Literals(LikeClause(p).value)
  {
    if p != [] {
      var front, c := p[..|p| - 1], p[|p| - 1];
      assert p == front + [c];
      var ts := Tokens(front, '\\');
      AppendCharacter(front, c, '\\');
      if !Dangling(p, '\\') {
        var t := if Dangling(front, '\\') then Lit(c) else FirstToken([c], '\\');
        assert Tokens(p, '\\') == ts + [t];
        FinalAnyAfter(ts, t);
        AppendToken(ts, t);
        if !HasWild(ts) {
          LiteralHeadIsAll(ts);
        }
      }
    }
  }

  lemma FinalAnyAfter(ts: seq<Token>, t: Token)
    ensures OnlyFinalAny(ts + [t]) <==> t.Any? && !HasWild(ts)
  {
    AllLiteral(ts);
    assert forall i :: 0 <= i < |ts| ==> (ts + [t])[i] == ts[i];
    if OnlyFinalAny(ts + [t]) {
      assert (ts + [t])[|ts|] == t;
    }
  }

  function Literals(s: string): seq<Token> {
    seq(|s|, i requires 0 <= i < |s| => Lit(s[i]))
  }

  lemma {:induction false} LiteralHeadIsAll(ts: seq<Token>)
    requires !HasWild(ts)
    ensures Literals(LiteralHead(ts)) == ts
  {
    if ts != [] {
      LiteralHeadIsAll(ts[1..]);
      var head := LiteralHead(ts);
      assert head[1..] == LiteralHead(ts[1..]);
      forall i | 0 <= i < |head| ensures i < |ts| && Lit(head[i]) == ts[i] {
        if i > 0 {
          assert Literals(head[1..])[i - 1] == ts[1..][i - 1];
        }
      }
    }
  }

  /** Read as wildcard text, an escaped character matches that one character and nothing else. */
  lemma EscapedIsOneCharacter(c: char, s: string, fold: char -> char)
    ensures WildcardMatches(Escaped(c), s, fold) <==> |s| == 1 && fold(s[0]) == fold(c)
  {
    var w := Escaped(c);
    if s != [] {
      assert w[|w|..] == [];
      assert WildcardMatches([], s[1..], fold) <==> |s| == 1;
    }
  }

  /** Append one literal character to a wildcard value, escaped if it is special there. */
  method PushEscaped(out: string, c: char) returns (res: string)
    ensures res == out + Escaped(c)
    ensures forall s: string, fold: char -> char ::
              WildcardMatches(res[|out|..], s, fold) <==> |s| == 1 && fold(s[0]) == fold(c)
  {
    res := out;
    if c == '*' || c == '?' || c == '\\' {
      res := res + ['\\'];
    }
    res := res + [c];
    forall s: string, fold: char -> char
      ensures WildcardMatches(res[|out|..], s, fold) <==> |s| == 1 && fold(s[0]) == fold(c)
    {
      assert res[|out|..] == Escaped(c);
      EscapedIsOneCharacter(c, s, fold);
    }
  }

  /** The loop state of `like_to_query`. */
  datatype Scan = Scan(prefix: string, wildcard: string, seenWild: bool, purePrefix: bool) {
    function Literal(c: char): Scan {
      Scan(if seenWild then prefix else prefix + [c], wildcard + Escaped(c), seenWild, purePrefix)
    }

    function Wild(t: Token, last: bool): Scan {
      Scan(prefix, wildcard + Symbol(t), true, t == Any && !seenWild && last)
    }
  }

  /** What `scan` stands for after the first `i` characters of the pattern, read as the tokens `read`. */
  ghost predicate Scanned(pattern: string, i: nat, read: seq<Token>, scan: Scan) {
    && i <= |pattern|
    && scan.prefix == LiteralHead(read)
    && scan.wildcard == Render(read)
    && Tokens(pattern, '\\') == read + Tokens(pattern[i..], '\\')
    && (i < |pattern| ==> Dangling(pattern, '\\') == Dangling(pattern[i..], '\\'))
    && scan.seenWild == HasWild(read)
    && scan.purePrefix == (!HasWild(read) || (i == |pattern| && OnlyFinalAny(read) && !Dangling(pattern, '\\')))
  }

  /** The loop of `like_to_query`: one pass with two accumulators and two flags. */
  method LikeToClause(pattern: string) returns (clause: Clause)
    ensures clause == LikeClause(pattern)
  {
    var prefix, wildcard, seenWild, purePrefix := "", "", false, true;
    var i := 0;
    ghost var read, scan := [], Scan(prefix, wildcard, seenWild, purePrefix);
    while i < |pattern|
      invariant 0 <= i <= |pattern|
      invariant prefix == scan.prefix && wildcard == scan.wildcard
      invariant seenWild == scan.seenWild && purePrefix == scan.purePrefix
      invariant Scanned(pattern, i, read, scan)
    {
      var c := pattern[i];
      if c == '\\' {
        if i + 1 < |pattern| {
          var n := pattern[i + 1];
          ScanLiteral(pattern, i, 2, read, n, scan);
          prefix := if seenWild then prefix else prefix + [n];
          wildcard := PushEscaped(wildcard, n);
          read, scan := read + [Lit(n)], scan.Literal(n);
          i := i + 2;
        } else {
          ScanDangling(pattern, read, scan);
          i := i + 1;
        }
      } else if c == '%' {
        ScanWild(pattern, i, read, Any, scan);
        purePrefix := !(seenWild || i + 1 < |pattern|);
        seenWild := true;
        wildcard := wildcard + "*";
        i := i + 1;
        read, scan := read + [Any], scan.Wild(Any, i == |pattern|);
      } else if c == '_' {
        ScanWild(pattern, i, read, One, scan);
        seenWild := true;
        purePrefix := false;
        wildcard := wildcard + "?";
        i := i + 1;
        read, scan := read + [One], scan.Wild(One, i == |pattern|);
      } else {
        ScanLiteral(pattern, i, 1, read, c, scan);
        prefix := if seenWild then prefix else prefix + [c];
        wildcard := PushEscaped(wildcard, c);
        read, scan := read + [Lit(c)], scan.Literal(c);
        i := i + 1;
      }
    }
    ScanComplete(pattern, read, scan);
    clause := if seenWild && purePrefix then PrefixValue(prefix) else WildcardValue(wildcard);
  }

  lemma ScanComplete(pattern: string, read: seq<Token>, scan: Scan)
    requires Scanned(pattern, |pattern|, read, scan)
    ensures LikeClause(pattern) ==
            if scan.seenWild && scan.purePrefix then PrefixValue(scan.prefix) else WildcardValue(scan.wildcard)
  {
    assert Tokens(pattern, '\\') == read;
    AllLiteral(read);
  }

  /** Reading one token moves it from what is left to what has been read. */
  lemma ReadToken(pattern: string, i: nat, width: nat, read: seq<Token>, t: Token)
    requires 1 <= width <= 2 && i + width <= |pattern|
    requires if width == 2 then pattern[i] == '\\' && t == Lit(pattern[i + 1])
             else pattern[i] != '\\' && t == FirstToken(pattern[i..], '\\')
    requires Tokens(pattern, '\\') == read + Tokens(pattern[i..], '\\')
    requires Dangling(pattern, '\\') == Dangling(pattern[i..], '\\')
    ensures Tokens(pattern, '\\') == (read + [t]) + Tokens(pattern[i + width..], '\\')
    ensures Dangling(pattern, '\\') == Dangling(pattern[i + width..], '\\')
  {
    var left := pattern[i..];
    TokensFrom(left, '\\');
    assert width == TokenWidth(left, '\\') && t == FirstToken(left, '\\');
    assert left[width..] == pattern[i + width..];
    Regroup(read, t, Tokens(pattern[i + width..], '\\'));
  }

  lemma TokensFrom(p: string, esc: char)
    requires p != [] && (p[0] == esc ==> |p| > 1)
    ensures Tokens(p, esc) == [FirstToken(p, esc)] + Tokens(p[TokenWidth(p, esc)..], esc)
    ensures Dangling(p, esc) == Dangling(p[TokenWidth(p, esc)..], esc)
  {
  }

  lemma ScanLiteral(pattern: string, i: nat, width: nat, read: seq<Token>, c: char, scan: Scan)
    requires 1 <= width <= 2 && i + width <= |pattern|
    requires if width == 2 then pattern[i] == '\\' && pattern[i + 1] == c
             else pattern[i] == c && c != '\\' && c != '%' && c != '_'
    requires Scanned(pattern, i, read, scan)
    ensures Scanned(pattern, i + width, read + [Lit(c)], scan.Literal(c))
  {
    ReadToken(pattern, i, width, read, Lit(c));
    AppendToken(read, Lit(c));
    FinalAnyAfter(read, Lit(c));
  }

  lemma ScanDangling(pattern: string, read: seq<Token>, scan: Scan)
    requires pattern != [] && pattern[|pattern| - 1] == '\\'
    requires Scanned(pattern, |pattern| - 1, read, scan)
    ensures Scanned(pattern, |pattern|, read, scan)
  {
    assert pattern[|pattern| - 1..] == "\\" && pattern[|pattern|..] == [];
  }

  lemma ScanWild(pattern: string, i: nat, read: seq<Token>, t: Token, scan: Scan)
    requires i < |pattern|
    requires (t == Any && pattern[i] == '%') || (t == One && pattern[i] == '_')
    requires Scanned(pattern, i, read, scan)
    ensures Scanned(pattern, i + 1, read + [t], scan.Wild(t, i + 1 == |pattern|))
  {
    ReadToken(pattern, i, 1, read, t);
    AppendToken(read, t);
    FinalAnyAfter(read, t);
    assert i + 1 == |pattern| ==> pattern[i + 1..] == [];
  }

  lemma {:induction false} AllLiteral(ts: seq<Token>)
    ensures HasWild(ts) <==> exists i :: 0 <= i < |ts| && !ts[i].Lit?
  {
    if ts != [] {
      AllLiteral(ts[1..]);
      if ts[0].Lit? && HasWild(ts[1..]) {
        var i :| 0 <= i < |ts[1..]| && !ts[1..][i].Lit?;
        assert !ts[i + 1].Lit?;
      }
      if i :| 1 <= i < |ts| && !ts[i].Lit? {
        assert !ts[1..][i - 1].Lit?;
      }
    }
  }

  lemma {:induction false} AppendRendered(ts: seq<Token>, t: Token)
    ensures Render(ts + [t]) == Render(ts) + Symbol(t)
  {
    if ts == [] {
      assert ts + [t] == [t];
    } else {
      var h, r := Symbol(ts[0]), Render(ts[1..]);
      assert (ts + [t])[1..] == ts[1..] + [t];
      calc {
        Render(ts + [t]);
        h + Render(ts[1..] + [t]);
        { AppendRendered(ts[1..], t); }
        h + (r + Symbol(t));
        (h + r) + Symbol(t);
        Render(ts) + Symbol(t);
      }
    }
  }

  lemma {:induction false} AppendToHead(ts: seq<Token>, t: Token)
    ensures LiteralHead(ts + [t]) == if HasWild(ts) then LiteralHead(ts) else LiteralHead(ts) + LiteralHead([t])
    ensures HasWild(ts + [t]) == (HasWild(ts) || !t.Lit?)
  {
    if ts == [] {
      assert ts + [t] == [t];
    } else {
      AppendToHead(ts[1..], t);
      assert (ts + [t])[1..] == ts[1..] + [t];
    }
  }

  lemma AppendToken(ts: seq<Token>, t: Token)
    ensures Render(ts + [t]) == Render(ts) + Symbol(t)
    ensures LiteralHead(ts + [t]) == LiteralHead(ts) + if HasWild(ts) then [] else LiteralHead([t])
    ensures HasWild(ts + [t]) == (HasWild(ts) || !t.Lit?)
  {
    AppendRendered(ts, t);
    AppendToHead(ts, t);
  }

  // ----- The two sides agree

  lemma {:induction false} StarTakesAnyRun(w: string, s: string, fold: char -> char)
    requires w != [] && w[0] == '*'
    ensures WildcardMatches(w, s, fold) <==> exists k :: 0 <= k <= |s| && WildcardMatches(w[1..], s[k..], fold)
    decreases |s|
  {
    if s != [] {
      StarTakesAnyRun(w, s[1..], fold);
      assert s[0..] == s;
      forall k | 1 <= k <= |s|
        ensures s[k..] == s[1..][k - 1..]
      {
      }
    }
    assert s[0..] == s;
  }

  /** Wildcard text rendered from tokens matches exactly the strings the tokens accept. */
  lemma {:induction false} RenderedTokensMatch(ts: seq<Token>, s: string, fold: char -> char)
    ensures WildcardMatches(Render(ts), s, fold) <==> Accepts(ts, s, fold)
    decreases |ts|
  {
    if ts != [] {
      var w := Render(ts);
      match ts[0]
      case Any =>
        assert w[1..] == Render(ts[1..]);
        StarTakesAnyRun(w, s, fold);
        forall k | 0 <= k <= |s| {
          RenderedTokensMatch(ts[1..], s[k..], fold);
        }
      case One =>
        assert w[1..] == Render(ts[1..]);
        if s != [] {
          RenderedTokensMatch(ts[1..], s[1..], fold);
        }
      case Lit(c) =>
        assert w[|Escaped(c)|..] == Render(ts[1..]);
        if s != [] {
          RenderedTokensMatch(ts[1..], s[1..], fold);
        }
    }
  }

  /** Literals followed by one `%` accept exactly the strings that start with those literals. */
  lemma {:induction false} FinalAnyIsPrefix(ts: seq<Token>, s: string, fold: char -> char)
    requires OnlyFinalAny(ts)
    ensures PrefixMatches(LiteralHead(ts), s, fold) <==> Accepts(ts, s, fold)
    decreases |ts|
  {
    if |ts| == 1 {
      assert s[|s|..] == [];
      assert Accepts(ts[1..], s[|s|..], fold);
    } else {
      assert ts[0].Lit?;
      var h := LiteralHead(ts);
      assert h == [ts[0].c] + LiteralHead(ts[1..]);
      if s != [] {
        FinalAnyIsPrefix(ts[1..], s[1..], fold);
        assert forall i :: 0 < i < |h| ==> h[i] == LiteralHead(ts[1..])[i - 1];
        assert forall i :: 0 < i < |s| ==> s[i] == s[1..][i - 1];
        assert PrefixMatches(h, s, fold) <==> fold(h[0]) == fold(s[0]) && PrefixMatches(h[1..], s[1..], fold) by {
          if fold(h[0]) == fold(s[0]) && PrefixMatches(h[1..], s[1..], fold) {
            forall i | 0 <= i < |h| ensures fold(h[i]) == fold(s[i]) {
              if i > 0 { assert h[1..][i - 1] == h[i] && s[1..][i - 1] == s[i]; }
            }
          }
          if PrefixMatches(h, s, fold) {
            forall i | 0 <= i < |h[1..]| ensures fold(h[1..][i]) == fold(s[1..][i]) {
              assert h[1..][i] == h[i + 1] && s[1..][i] == s[i + 1];
            }
          }
        }
        assert h[1..] == LiteralHead(ts[1..]);
      }
    }
  }

  /** Without a dangling escape the clause matches exactly the strings SQL accepts. */
  lemma ClauseIsExact(p: string, s: string, fold: char -> char, rule: DanglingRule)
    requires !Dangling(p, '\\')
    ensures ClauseMatches(LikeClause(p), s, fold) <==> SqlLike(p, '\\', s, fold, rule)
  {
    var ts := Tokens(p, '\\');
    if OnlyFinalAny(ts) {
      FinalAnyIsPrefix(ts, s, fold);
    } else {
      RenderedTokensMatch(ts, s, fold);
    }
  }

  predicate Plain(p: string) {
    '%' !in p && '_' !in p && '\\' !in p
  }

  /** A pattern without specials accepts exactly itself, up to case where case is folded. */
  lemma {:induction false} PlainPattern(p: string, s: string, fold: char -> char)
    requires Plain(p)
    ensures !Dangling(p, '\\')
    ensures Accepts(Tokens(p, '\\'), s, fold) <==> |s| == |p| && forall i :: 0 <= i < |p| ==> fold(s[i]) == fold(p[i])
    decreases |p|
  {
    if p != [] {
      assert p[0] in p && forall c :: c in p[1..] ==> c in p;
      if s != [] {
        PlainPattern(p[1..], s[1..], fold);
        assert forall i :: 0 < i < |s| ==> s[i] == s[1..][i - 1];
        assert forall i :: 0 < i < |p| ==> p[i] == p[1..][i - 1];
      } else {
        PlainPattern(p[1..], s, fold);
      }
    }
  }

  // ----- The dangling escape

  /** A shortest string the tokens accept. */
  function Shortest(ts: seq<Token>): string {
    if ts == [] then []
    else (match ts[0] case Lit(c) => [c] case One => "x" case Any => []) + Shortest(ts[1..])
  }

  lemma {:induction false} ShortestIsAccepted(ts: seq<Token>, fold: char -> char)
    ensures Accepts(ts, Shortest(ts), fold)
  {
    if ts != [] {
      ShortestIsAccepted(ts[1..], fold);
      var s := Shortest(ts);
      if ts[0].Any? {
        assert s[0..] == Shortest(ts[1..]);
      } else {
        assert s[1..] == Shortest(ts[1..]);
      }
    }
  }

  lemma {:induction false} NothingShorter(ts: seq<Token>, s: string, fold: char -> char)
    requires Accepts(ts, s, fold)
    ensures |Shortest(ts)| <= |s|
    decreases |ts|
  {
    if ts != [] {
      if ts[0].Any? {
        var k :| 0 <= k <= |s| && Accepts(ts[1..], s[k..], fold);
        NothingShorter(ts[1..], s[k..], fold);
      } else {
        NothingShorter(ts[1..], s[1..], fold);
      }
    }
  }

  lemma {:induction false} ShortestAppend(ts: seq<Token>, c: char)
    ensures Shortest(ts + [Lit(c)]) == Shortest(ts) + [c]
  {
    if ts == [] {
      assert ts + [Lit(c)] == [Lit(c)];
    } else {
      assert (ts + [Lit(c)])[1..] == ts[1..] + [Lit(c)];
      ShortestAppend(ts[1..], c);
    }
  }

  /** A string the clause of a pattern with a dangling escape accepts and SQL does not: the clause
      has dropped the escape and so accepts a string that is too short. */
  lemma TooShort(p: string, fold: char -> char, rule: DanglingRule) returns (s: string)
    requires Dangling(p, '\\')
    ensures ClauseMatches(LikeClause(p), s, fold) && !SqlLike(p, '\\', s, fold, rule)
  {
    var ts := Tokens(p, '\\');
    s := Shortest(ts);
    ShortestIsAccepted(ts, fold);
    RenderedTokensMatch(ts, s, fold);
    ShortestAppend(ts, '\\');
    if Accepts(ts + [Lit('\\')], s, fold) {
      NothingShorter(ts + [Lit('\\')], s, fold);
      assert false;
    }
  }

  /** Nothing but `%`. */
  predicate OnlyAny(ts: seq<Token>) {
    ts != [] && forall i :: 0 <= i < |ts| ==> ts[i].Any?
  }

  lemma {:induction false} OnlyAnyTakesAll(ts: seq<Token>, s: string, fold: char -> char)
    requires OnlyAny(ts)
    ensures Accepts(ts, s, fold)
  {
    if |ts| == 1 {
      assert s[|s|..] == [] && ts[1..] == [];
      assert Accepts(ts[1..], s[|s|..], fold);
    } else {
      OnlyAnyTakesAll(ts[1..], s, fold);
      assert s[0..] == s;
    }
  }

  lemma {:induction false} EmptyNeedsAny(ts: seq<Token>, fold: char -> char)
    requires Accepts(ts, [], fold) && ts != []
    ensures OnlyAny(ts)
  {
    assert ts[0].Any?;
    var s: string := [];
    assert s[0..] == s;
    if ts[1..] != [] {
      EmptyNeedsAny(ts[1..], fold);
      assert forall i :: 0 < i < |ts| ==> ts[i] == ts[1..][i - 1];
    }
  }

  lemma Refused(ts: seq<Token>, fold: char -> char) returns (s: string)
    requires !OnlyAny(ts)
    ensures !Accepts(ts, s, fold)
  {
    s := if ts == [] then "x" else [];
    if ts != [] && Accepts(ts, [], fold) {
      EmptyNeedsAny(ts, fold);
    }
  }

  /** The translation of a pattern is exact if and only if the pattern has no dangling escape,
      whichever way SQL reads a dangling one. */
  lemma ExactIffNoDanglingEscape(p: string, fold: char -> char, rule: DanglingRule)
    ensures (forall s: string :: ClauseMatches(LikeClause(p), s, fold) <==> SqlLike(p, '\\', s, fold, rule))
            <==> !Dangling(p, '\\')
  {
    if Dangling(p, '\\') {
      var s := TooShort(p, fold, rule);
    } else {
      forall s: string
        ensures ClauseMatches(LikeClause(p), s, fold) <==> SqlLike(p, '\\', s, fold, rule)
      {
        ClauseIsExact(p, s, fold, rule);
      }
    }
  }

  // ----- What a dropped escape loses

  predicate TakesCharacter(t: Token, c: char, fold: char -> char) {
    match t case Lit(x) => fold(c) == fold(x) case One => true case Any => false
  }

  ghost predicate Covers(t: Token, u: Token, fold: char -> char) {
    forall c :: TakesCharacter(u, c, fold) ==> TakesCharacter(t, c, fold)
  }

  /** Dropping a final `u` loses nothing: before it stands a `%`, or a token that takes all that `u`
      takes and can itself be dropped. */
  ghost predicate Absorbs(ts: seq<Token>, u: Token, fold: char -> char)
    decreases |ts|
  {
    && ts != []
    && var k := |ts| - 1;
       ts[k].Any? || (Covers(ts[k], u, fold) && Absorbs(ts[..k], ts[k], fold))
  }

  lemma {:induction false} AcceptsLast(ts: seq<Token>, t: Token, s: string, fold: char -> char)
    requires !t.Any?
    ensures Accepts(ts + [t], s, fold) <==>
            s != [] && TakesCharacter(t, s[|s| - 1], fold) && Accepts(ts, s[..|s| - 1], fold)
    decreases |ts|
  {
    var all, n := ts + [t], |s| - 1;
    if ts == [] {
      assert all == [t] && all[1..] == [];
    } else {
      assert all[0] == ts[0] && all[1..] == ts[1..] + [t];
      if ts[0].Any? {
        forall k | 0 <= k <= |s|
          ensures Accepts(all[1..], s[k..], fold) <==>
                  k <= n && TakesCharacter(t, s[n], fold) && Accepts(ts[1..], s[..n][k..], fold)
        {
          AcceptsLast(ts[1..], t, s[k..], fold);
          assert k <= n ==> s[k..][..n - k] == s[..n][k..];
        }
      } else if s != [] {
        AcceptsLast(ts[1..], t, s[1..], fold);
        assert n > 0 ==> s[1..][..n - 1] == s[..n][1..];
      }
    }
  }

  lemma {:induction false} FinalAnyGrows(ts: seq<Token>, s: string, c: char, fold: char -> char)
    requires ts != [] && ts[|ts| - 1].Any? && Accepts(ts, s, fold)
    ensures Accepts(ts, s + [c], fold)
    decreases |ts|
  {
    var longer := s + [c];
    assert |ts| > 1 ==> ts[1..][|ts| - 2] == ts[|ts| - 1];
    if |ts| == 1 {
      assert longer[|longer|..] == [] && ts[1..] == [];
      assert Accepts(ts[1..], longer[|longer|..], fold);
    } else if ts[0].Any? {
      var k :| 0 <= k <= |s| && Accepts(ts[1..], s[k..], fold);
      assert longer[k..] == s[k..] + [c];
      FinalAnyGrows(ts[1..], s[k..], c, fold);
    } else {
      assert longer[0] == s[0] && longer[1..] == s[1..] + [c];
      FinalAnyGrows(ts[1..], s[1..], c, fold);
    }
  }

  lemma {:induction false} AbsorbedIsAccepted(ts: seq<Token>, u: Token, s: string, fold: char -> char)
    requires !u.Any? && Absorbs(ts, u, fold) && Accepts(ts + [u], s, fold)
    ensures Accepts(ts, s, fold)
    decreases |ts|
  {
    var k, n := |ts| - 1, |s| - 1;
    AcceptsLast(ts, u, s, fold);
    if ts[k].Any? {
      FinalAnyGrows(ts, s[..n], s[n], fold);
      assert s[..n] + [s[n]] == s;
    } else {
      assert ts == ts[..k] + [ts[k]];
      AbsorbedIsAccepted(ts[..k], ts[k], s[..n], fold);
      AcceptsLast(ts[..k], ts[k], s, fold);
    }
  }

  /** A string that needs the final `u`. */
  lemma {:induction false} NotAbsorbed(ts: seq<Token>, u: Token, fold: char -> char) returns (s: string)
    requires !u.Any? && !Absorbs(ts, u, fold)
    ensures Accepts(ts + [u], s, fold) && !Accepts(ts, s, fold)
    decreases |ts|
  {
    var k := |ts| - 1;
    var front, c := "", if u.Lit? then u.c else 'x';
    if ts != [] && !Covers(ts[k], u, fold) {
      c :| TakesCharacter(u, c, fold) && !TakesCharacter(ts[k], c, fold);
      front := Shortest(ts);
      ShortestIsAccepted(ts, fold);
    } else if ts != [] {
      assert ts == ts[..k] + [ts[k]];
      front := NotAbsorbed(ts[..k], ts[k], fold);
    }
    s := front + [c];
    assert s[..|s| - 1] == front;
    AcceptsLast(ts, u, s, fold);
    if ts != [] {
      assert ts == ts[..k] + [ts[k]];
      AcceptsLast(ts[..k], ts[k], s, fold);
    }
  }

  /** Where a dangling escape stands for itself, the clause that drops it still accepts every string SQL
      accepts if and only if the rest of the pattern absorbs it. */
  lemma DroppedEscapeLosesNothingIff(p: string, fold: char -> char)
    requires Dangling(p, '\\')
    ensures (forall s: string :: SqlLike(p, '\\', s, fold, LiteralEscape) ==> ClauseMatches(LikeClause(p), s, fold))
            <==> Absorbs(Tokens(p, '\\'), Lit('\\'), fold)
  {
    var ts, u := Tokens(p, '\\'), Lit('\\');
    if Absorbs(ts, u, fold) {
      forall s: string | SqlLike(p, '\\', s, fold, LiteralEscape)
        ensures ClauseMatches(LikeClause(p), s, fold)
      {
        AbsorbedIsAccepted(ts, u, s, fold);
        RenderedTokensMatch(ts, s, fold);
      }
    } else {
      var s := NotAbsorbed(ts, u, fold);
      RenderedTokensMatch(ts, s, fold);
      assert SqlLike(p, '\\', s, fold, LiteralEscape) && !ClauseMatches(LikeClause(p), s, fold);
    }
  }
}
