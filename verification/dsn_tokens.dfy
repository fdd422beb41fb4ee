/** Key=value connection strings as tokens: a reading of the whole text that loses nothing. */
module DsnTokens {
  import opened Sequences

  /** A value as it stands in the text: unquoted, or quoted and stopped at its quote, at the end of the
      text, or there on a lone backslash. */
  datatype Kind = Plain | Closed | Open | Dangling

  datatype Value = Value(text: string, kind: Kind)

  datatype Token =
    | Gap(spaces: string)
    | Word(key: string)
    | Pair(key: string, value: Value)

  function RenderPair(key: string, text: string): string {
    key + ("=" + text)
  }

  function RenderToken(t: Token): string {
    match t
    case Gap(spaces) => spaces
    case Word(key) => key
    case Pair(key, value) => RenderPair(key, value.text)
  }

  function Render(ts: seq<Token>): string {
    if ts == [] then "" else RenderToken(ts[0]) + Render(ts[1..])
  }

  // ----- reading the text s from index i -----

  /** The first character at or after i that is one of `stop`, or the end. */
  function SpanEnd(s: string, i: nat, stop: set<char>): (j: nat)
    requires i <= |s|
    ensures i <= j <= |s|
    decreases |s| - i
  {
    if i == |s| || s[i] in stop then i else SpanEnd(s, i + 1, stop)
  }

  function GapEnd(s: string, i: nat): (j: nat)
    requires i <= |s|
    ensures i <= j <= |s|
    decreases |s| - i
  {
    if i == |s| || s[i] != ' ' then i else GapEnd(s, i + 1)
  }

  /** Where a quoted value ends, scanning after its opening quote; a backslash takes the next character. */
  function QuoteEnd(s: string, i: nat): (r: (nat, Kind))
    requires i <= |s|
    ensures i <= r.0 <= |s| && r.1 != Plain
    decreases |s| - i
  {
    if i == |s| then (i, Open)
    else if s[i] == '\'' then (i + 1, Closed)
    else if s[i] == '\\' then
      if i + 1 == |s| then (i + 1, Dangling) else QuoteEnd(s, i + 2)
    else QuoteEnd(s, i + 1)
  }

  function ValueEnd(s: string, i: nat): (r: (nat, Kind))
    requires i <= |s|
    ensures i <= r.0 <= |s|
  {
    if i < |s| && s[i] == '\'' then QuoteEnd(s, i + 1) else (SpanEnd(s, i, {' '}), Plain)
  }

  /** The token at i, and where the next one starts. */
  function First(s: string, i: nat): (r: (Token, nat))
    requires i < |s|
    ensures i < r.1 <= |s|
  {
    if s[i] == ' ' then (Gap(s[i..GapEnd(s, i)]), GapEnd(s, i))
    else
      var j := SpanEnd(s, i, {'=', ' '});
      if j == |s| || s[j] == ' ' then (Word(s[i..j]), j)
      else
        var (k, kind) := ValueEnd(s, j + 1);
        (Pair(s[i..j], Value(s[j + 1..k], kind)), k)
  }

  function Tokenize(s: string, i: nat): seq<Token>
    requires i <= |s|
    decreases |s| - i
  {
    if i == |s| then []
    else
      var (t, j) := First(s, i);
      [t] + Tokenize(s, j)
  }

  function Tokens(s: string): seq<Token> {
    Tokenize(s, 0)
  }

  // ----- the token lists that texts have -----

  ghost predicate Without(s: string, stop: set<char>) {
    forall k :: 0 <= k < |s| ==> s[k] !in stop
  }

  ghost predicate ValueOk(v: Value) {
    ValueEnd(v.text, 0) == (|v.text|, v.kind)
  }

  ghost predicate TokenOk(t: Token) {
    match t
    case Gap(spaces) => spaces != "" && forall k :: 0 <= k < |spaces| ==> spaces[k] == ' '
    case Word(key) => key != "" && Without(key, {'=', ' '})
    case Pair(key, value) => Without(key, {'=', ' '}) && ValueOk(value)
  }

  /** Whether `t` may stand before `rest` without running into it. */
  ghost predicate Stops(t: Token, rest: seq<Token>) {
    rest == [] ||
    match t
    case Gap(_) => !rest[0].Gap?
    case Word(_) => rest[0].Gap?
    case Pair(_, value) => if value.kind == Plain then rest[0].Gap? else value.kind == Closed
  }

  ghost predicate WellFormed(ts: seq<Token>) {
    ts != [] ==> TokenOk(ts[0]) && Stops(ts[0], ts[1..]) && WellFormed(ts[1..])
  }

  // ----- what the scans mean -----

  lemma {:induction false} SpanEndIs(s: string, i: nat, p: string, stop: set<char>)
    requires At(s, i, p) && Without(p, stop) && (i + |p| == |s| || s[i + |p|] in stop)
    ensures SpanEnd(s, i, stop) == i + |p|
    decreases |p|
  {
    if p == "" {
    } else {
      assert s[i + 0] == p[0];
      assert forall k :: 0 <= k < |p[1..]| ==> p[1..][k] == p[k + 1];
      SpanEndIs(s, i + 1, p[1..], stop);
    }
  }

  lemma {:induction false} SpanEndMeans(s: string, i: nat, stop: set<char>)
    requires i <= |s|
    ensures var j := SpanEnd(s, i, stop);
      Without(s[i..j], stop) && (j == |s| || s[j] in stop)
    decreases |s| - i
  {
    if i == |s| || s[i] in stop {
    } else {
      SpanEndMeans(s, i + 1, stop);
      var j := SpanEnd(s, i, stop);
      assert s[i..j] == [s[i]] + s[i + 1..j];
    }
  }

  lemma {:induction false} GapEndIs(s: string, i: nat, j: nat)
    requires i <= j <= |s| && (forall k :: i <= k < j ==> s[k] == ' ') && (j == |s| || s[j] != ' ')
    ensures GapEnd(s, i) == j
    decreases j - i
  {
    if i == j {
    } else {
      GapEndIs(s, i + 1, j);
    }
  }

  lemma {:induction false} GapEndMeans(s: string, i: nat)
    requires i <= |s|
    ensures var j := GapEnd(s, i);
      (forall k :: i <= k < j ==> s[k] == ' ') && (j == |s| || s[j] != ' ')
    decreases |s| - i
  {
    if i == |s| || s[i] != ' ' {
    } else {
      GapEndMeans(s, i + 1);
    }
  }

  /** The scan of a quoted value depends only on the text up to its end. */
  lemma {:induction false} QuoteEndLocal(p: string, k: nat, s: string, i: nat)
    requires At(s, i, p) && k <= |p|
    requires QuoteEnd(p, k).1 == Closed || i + |p| == |s|
    ensures QuoteEnd(s, i + k) == (i + QuoteEnd(p, k).0, QuoteEnd(p, k).1)
    decreases |p| - k
  {
    if k == |p| {
    } else {
      assert s[i + k] == p[k];
      if p[k] == '\\' {
        if k + 1 < |p| {
          QuoteEndLocal(p, k + 2, s, i);
        }
      } else if p[k] != '\'' {
        QuoteEndLocal(p, k + 1, s, i);
      }
    }
  }

  /** And it ends at the same place in a text cut there. */
  lemma {:induction false} QuoteEndCut(s: string, i: nat, k: nat, j: nat)
    requires i <= k <= j <= |s| && j == QuoteEnd(s, k).0
    ensures QuoteEnd(s[i..j], k - i) == (j - i, QuoteEnd(s, k).1)
    decreases |s| - k
  {
    if k == |s| {
    } else {
      assert s[i..j][k - i] == s[k];
      if s[k] == '\\' {
        if k + 1 < |s| {
          QuoteEndCut(s, i, k + 2, j);
        }
      } else if s[k] != '\'' {
        QuoteEndCut(s, i, k + 1, j);
      }
    }
  }

  lemma {:induction false} QuoteEndStops(s: string, i: nat)
    requires i <= |s|
    ensures QuoteEnd(s, i).1 != Closed ==> QuoteEnd(s, i).0 == |s|
    ensures QuoteEnd(s, i).1 == Closed ==> i < QuoteEnd(s, i).0
    decreases |s| - i
  {
    if i < |s| && s[i] == '\\' && i + 1 < |s| {
      QuoteEndStops(s, i + 2);
    } else if i < |s| && s[i] != '\\' && s[i] != '\'' {
      QuoteEndStops(s, i + 1);
    }
  }

  // ----- nothing is lost -----

  lemma PairAt(s: string, i: nat, j: nat, k: nat)
    requires i <= j < k <= |s| && s[j] == '='
    ensures At(s, i, RenderPair(s[i..j], s[j + 1..k]))
  {
    AtSlice(s, i, j);
    AtSlice(s, j + 1, k);
    AtAppend(s, j, "=", s[j + 1..k]);
    AtAppend(s, i, s[i..j], "=" + s[j + 1..k]);
  }

  lemma FirstRenders(s: string, i: nat)
    requires i < |s|
    ensures RenderToken(First(s, i).0) == s[i..First(s, i).1]
  {
    var j := SpanEnd(s, i, {'=', ' '});
    SpanEndMeans(s, i, {'=', ' '});
    if s[i] != ' ' && j < |s| && s[j] != ' ' {
      var k := ValueEnd(s, j + 1).0;
      PairAt(s, i, j, k);
      AtIsSlice(s, i, RenderPair(s[i..j], s[j + 1..k]));
    }
  }

  lemma Rejoin(s: string, i: nat, j: nat)
    requires i <= j <= |s|
    ensures s[i..j] + s[j..] == s[i..]
  {
  }

  lemma {:induction false} RenderTokenize(s: string, i: nat)
    requires i <= |s|
    ensures Render(Tokenize(s, i)) == s[i..]
    decreases |s| - i
  {
    if i == |s| {
    } else {
      FirstRenders(s, i);
      RenderTokenize(s, First(s, i).1);
      Rejoin(s, i, First(s, i).1);
    }
  }

  lemma ValueEndOk(s: string, i: nat)
    requires i <= |s|
    ensures var (j, kind) := ValueEnd(s, i);
      && ValueOk(Value(s[i..j], kind))
      && (j == |s| || kind == Closed || (kind == Plain && s[j] == ' '))
  {
    var (j, kind) := ValueEnd(s, i);
    var text := s[i..j];
    if i < |s| && s[i] == '\'' {
      QuoteEndCut(s, i, i + 1, j);
      QuoteEndStops(s, i + 1);
      assert text[0] == s[i];
    } else {
      SpanEndMeans(s, i, {' '});
      assert text != "" ==> text[0] == s[i];
      SpanEndIs(text, 0, text, {' '});
    }
  }

  lemma TokenizeStart(s: string, i: nat)
    requires i <= |s|
    ensures Tokenize(s, i) == [] <==> i == |s|
    ensures i < |s| ==> (Tokenize(s, i)[0].Gap? <==> s[i] == ' ')
  {
  }

  /** The same, told from the character at j. */
  ghost predicate StopsAt(t: Token, s: string, j: nat)
    requires j <= |s|
  {
    j == |s| ||
    match t
    case Gap(_) => s[j] != ' '
    case Word(_) => s[j] == ' '
    case Pair(_, value) => value.kind == Closed || (value.kind == Plain && s[j] == ' ')
  }

  lemma FirstOk(s: string, i: nat)
    requires i < |s|
    ensures TokenOk(First(s, i).0) && StopsAt(First(s, i).0, s, First(s, i).1)
  {
    if s[i] == ' ' {
      GapEndMeans(s, i);
    } else {
      SpanEndMeans(s, i, {'=', ' '});
      var j := SpanEnd(s, i, {'=', ' '});
      if j < |s| && s[j] != ' ' {
        ValueEndOk(s, j + 1);
      }
    }
  }

  lemma {:induction false} TokenizeWellFormed(s: string, i: nat)
    requires i <= |s|
    ensures WellFormed(Tokenize(s, i))
    decreases |s| - i
  {
    if i == |s| {
    } else {
      FirstOk(s, i);
      TokenizeStart(s, First(s, i).1);
      TokenizeWellFormed(s, First(s, i).1);
      assert Tokenize(s, i)[1..] == Tokenize(s, First(s, i).1);
    }
  }

  /** The tokens ts stand in s from index i to the end. */
  ghost predicate Stand(s: string, i: nat, ts: seq<Token>)
    decreases |ts|
  {
    if ts == [] then i == |s| else At(s, i, RenderToken(ts[0])) && Stand(s, i + |RenderToken(ts[0])|, ts[1..])
  }

  lemma {:induction false} RenderStands(s: string, i: nat, ts: seq<Token>)
    requires At(s, i, Render(ts)) && i + |Render(ts)| == |s|
    ensures Stand(s, i, ts)
    decreases |ts|
  {
    if ts == [] {
    } else {
      AtSplit(s, i, RenderToken(ts[0]), Render(ts[1..]));
      RenderStands(s, i + |RenderToken(ts[0])|, ts[1..]);
    }
  }

  /** A token starts with a space exactly when it is a gap. */
  lemma TokenStart(t: Token)
    requires TokenOk(t)
    ensures RenderToken(t) != "" && (RenderToken(t)[0] == ' ' <==> t.Gap?)
  {
    if t.Pair? {
      assert RenderToken(t)[0] == if t.key == "" then '=' else t.key[0];
    }
  }

  lemma ValueExact(s: string, i: nat, v: Value)
    requires ValueOk(v) && At(s, i, v.text)
    requires var j := i + |v.text|;
      j == |s| || v.kind == Closed || (v.kind == Plain && s[j] == ' ')
    ensures ValueEnd(s, i) == (i + |v.text|, v.kind)
  {
    if v.kind == Plain {
      SpanEndMeans(v.text, 0, {' '});
      assert v.text[0..|v.text|] == v.text;
      assert v.text != "" ==> s[i + 0] == v.text[0];
      SpanEndIs(s, i, v.text, {' '});
    } else {
      assert s[i + 0] == v.text[0];
      QuoteEndLocal(v.text, 1, s, i);
    }
  }

  lemma PairExact(s: string, i: nat, key: string, value: Value)
    requires Without(key, {'=', ' '}) && ValueOk(value) && At(s, i, RenderPair(key, value.text))
    requires var j := i + |key| + 1 + |value.text|;
      j == |s| || value.kind == Closed || (value.kind == Plain && s[j] == ' ')
    ensures First(s, i) == (Pair(key, value), i + |key| + 1 + |value.text|)
  {
    AtSplit(s, i, key, "=" + value.text);
    AtSplit(s, i + |key|, "=", value.text);
    assert s[i + |key| + 0] == "="[0];
    assert key != "" ==> s[i + 0] == key[0];
    SpanEndIs(s, i, key, {'=', ' '});
    AtIsSlice(s, i, key);
    ValueExact(s, i + |key| + 1, value);
    AtIsSlice(s, i + |key| + 1, value.text);
  }

  lemma FirstExact(s: string, i: nat, t: Token)
    requires TokenOk(t) && At(s, i, RenderToken(t)) && StopsAt(t, s, i + |RenderToken(t)|)
    ensures i < |s| && First(s, i) == (t, i + |RenderToken(t)|)
  {
    match t
    case Gap(spaces) =>
      var j := i + |spaces|;
      forall k | i <= k < j ensures s[k] == ' ' {
        assert s[i + (k - i)] == spaces[k - i];
      }
      GapEndIs(s, i, j);
      AtIsSlice(s, i, spaces);
    case Word(key) =>
      assert s[i + 0] == key[0];
      SpanEndIs(s, i, key, {'=', ' '});
      AtIsSlice(s, i, key);
    case Pair(key, value) =>
      PairExact(s, i, key, value);
  }

  lemma StopsStanding(s: string, j: nat, t: Token, rest: seq<Token>)
    requires j <= |s| && Stops(t, rest) && WellFormed(rest) && Stand(s, j, rest)
    ensures StopsAt(t, s, j)
  {
    if rest != [] {
      TokenStart(rest[0]);
      assert s[j + 0] == RenderToken(rest[0])[0];
    }
  }

  /** The tokens ts are what First reads in s from index i to the end. */
  ghost predicate Reads(s: string, i: nat, ts: seq<Token>)
    decreases |ts|
  {
    if ts == [] then i == |s|
    else i < |s| && First(s, i).0 == ts[0] && Reads(s, First(s, i).1, ts[1..])
  }

  lemma {:induction false} StandingReads(s: string, i: nat, ts: seq<Token>)
    requires i <= |s| && WellFormed(ts) && Stand(s, i, ts)
    ensures Reads(s, i, ts)
    decreases |ts|
  {
    if ts == [] {
    } else {
      var j := i + |RenderToken(ts[0])|;
      StopsStanding(s, j, ts[0], ts[1..]);
      FirstExact(s, i, ts[0]);
      StandingReads(s, j, ts[1..]);
    }
  }

  lemma {:induction false} ReadsTokenize(s: string, i: nat, ts: seq<Token>)
    requires i <= |s| && Reads(s, i, ts)
    ensures Tokenize(s, i) == ts
    decreases |ts|
  {
    if ts == [] {
    } else {
      ReadsTokenize(s, First(s, i).1, ts[1..]);
    }
  }

  /** Reading back a well-formed list of tokens gives the same tokens. */
  lemma TokenizeRender(ts: seq<Token>)
    requires WellFormed(ts)
    ensures Tokens(Render(ts)) == ts
  {
    RenderStands(Render(ts), 0, ts);
    StandingReads(Render(ts), 0, ts);
    ReadsTokenize(Render(ts), 0, ts);
  }
}
