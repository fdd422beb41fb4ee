/** The redaction of key=value connection strings: an index scanner, against the token reading. */
module DsnRedact {
  import opened DsnTokens
  import opened Sequences

  /** The redacted text, or a slice past the end of the input. */
  datatype Outcome = Text(text: string) | SliceOutOfRange

  predicate Sensitive(key: string) {
    key == "password" || key == "passfile"
  }

  function Mask(v: Value): Value {
    if v.kind == Plain then Value("xxxxx", Plain) else Value("'xxxxx'", Closed)
  }

  function RedactToken(t: Token): Token {
    if t.Pair? && Sensitive(t.key) then Pair(t.key, Mask(t.value)) else t
  }

  function Redacted(ts: seq<Token>): seq<Token> {
    if ts == [] then [] else [RedactToken(ts[0])] + Redacted(ts[1..])
  }

  /** A value that is copied, and whose last backslash takes a character that is not there. */
  predicate Overruns(t: Token) {
    t.Pair? && !Sensitive(t.key) && t.value.kind == Dangling
  }

  predicate SomeOverrun(ts: seq<Token>) {
    ts != [] && (Overruns(ts[0]) || SomeOverrun(ts[1..]))
  }

  function RedactTokens(ts: seq<Token>): Outcome {
    if SomeOverrun(ts) then SliceOutOfRange else Text(Render(Redacted(ts)))
  }

  function Redact(dsn: string): Outcome {
    RedactTokens(Tokens(dsn))
  }

  // ----- the scanner -----

  function Unread(dsn: string, i: nat): seq<Token> {
    if i < |dsn| then Tokenize(dsn, i) else []
  }

  function Prepend(head: string, o: Outcome): Outcome {
    if o.Text? then Text(head + o.text) else o
  }

  /** What has been written is right if the rest will be. */
  ghost predicate Progress(dsn: string, i: nat, result: string) {
    Redact(dsn) == Prepend(result, RedactTokens(Unread(dsn, i)))
  }

  /** Redacting one more token. */
  lemma RedactOne(t: Token, rest: seq<Token>, result: string)
    ensures Prepend(result, RedactTokens([t] + rest))
         == if Overruns(t) then SliceOutOfRange
            else Prepend(result + RenderToken(RedactToken(t)), RedactTokens(rest))
  {
    var ts := [t] + rest;
    assert ts[0] == t && ts[1..] == rest;
    if !SomeOverrun(ts) {
      assert Redacted(ts) == [RedactToken(t)] + Redacted(rest);
      assert Redacted(ts)[0] == RedactToken(t) && Redacted(ts)[1..] == Redacted(rest);
      Associative(result, RenderToken(RedactToken(t)), Render(Redacted(rest)));
    }
  }

  /** Having scanned the token at i. */
  lemma Advance(dsn: string, i: nat, result: string)
    requires i < |dsn| && Progress(dsn, i, result)
    ensures var (t, j) := First(dsn, i);
      if Overruns(t) then Redact(dsn) == SliceOutOfRange
      else Progress(dsn, j, result + RenderToken(RedactToken(t)))
  {
    var (t, j) := First(dsn, i);
    RedactOne(t, Tokenize(dsn, j), result);
  }

  lemma PairText(result: string, key: string, text: string)
    ensures result + key + "=" + text == result + RenderPair(key, text)
  {
    Associative(result, key, "=");
    Associative(result, key + "=", text);
    Associative(key, "=", text);
    Associative(result, key, "=" + text);
  }

  /** Where the index stands after a quoted value: past its closing quote, at the end of the text, or one
      past it. */
  method ScanQuoted(dsn: string, i: nat) returns (end: nat)
    requires i < |dsn| && dsn[i] == '\''
    ensures var (j, kind) := QuoteEnd(dsn, i + 1);
      end == if kind == Dangling then j + 1 else j
  {
    end := i + 1;
    while end < |dsn| && dsn[end] != '\''
      invariant i + 1 <= end <= |dsn| + 1
      invariant end <= |dsn| ==> QuoteEnd(dsn, i + 1) == QuoteEnd(dsn, end)
      invariant end == |dsn| + 1 ==> QuoteEnd(dsn, i + 1) == (|dsn|, Dangling)
      decreases |dsn| - end
    {
      if dsn[end] == '\\' {
        end := end + 1;
      }
      end := end + 1;
    }
    if end < |dsn| {
      end := end + 1;
    }
  }

  /** Mask or copy the value at i, the copy slicing up to the index the scan has reached. */
  method RedactValue(dsn: string, i: nat, sensitive: bool, before: string)
    returns (inRange: bool, result: string, end: nat)
    requires i <= |dsn|
    ensures var (j, kind) := ValueEnd(dsn, i);
      var v := Value(dsn[i..j], kind);
      && end == (if kind == Dangling then j + 1 else j)
      && (inRange <==> sensitive || kind != Dangling)
      && (inRange ==> result == before + (if sensitive then Mask(v) else v).text)
  {
    inRange, result := true, before;
    if i < |dsn| && dsn[i] == '\'' {
      end := ScanQuoted(dsn, i);
      QuoteEndStops(dsn, i + 1);
      if sensitive {
        result := result + "'xxxxx'";
      } else if end > |dsn| {
        inRange := false;
      } else {
        result := result + dsn[i..end];
      }
    } else {
      end := i;
      while end < |dsn| && dsn[end] != ' '
        invariant i <= end <= |dsn|
        invariant SpanEnd(dsn, i, {' '}) == SpanEnd(dsn, end, {' '})
      {
        end := end + 1;
      }
      result := result + if sensitive then "xxxxx" else dsn[i..end];
    }
  }

  /** Copy a key and its equals sign at i, and mask or copy the value. */
  method RedactPair(dsn: string, keyStart: nat, i: nat, before: string)
    returns (inRange: bool, result: string, end: nat)
    requires keyStart <= i < |dsn|
    ensures var scan := PairAtSign(dsn, keyStart, i);
      && end == Reach(scan) && (Reach(scan) != scan.1 ==> scan.1 == |dsn|)
      && (inRange <==> !Overruns(scan.0))
      && (inRange ==> result == before + RenderToken(RedactToken(scan.0)))
  {
    var key := dsn[keyStart..i];
    result := before + key;
    result := result + "=";
    inRange, result, end := RedactValue(dsn, i + 1, Sensitive(key), result);
    ghost var (j, kind) := ValueEnd(dsn, i + 1);
    ghost var v := Value(dsn[i + 1..j], kind);
    ValueEndStops(dsn, i + 1);
    PairText(before, key, (if Sensitive(key) then Mask(v) else v).text);
  }

  method CopyGap(dsn: string, start: nat, before: string) returns (i: nat, result: string)
    requires start <= |dsn|
    ensures start <= i <= |dsn| && i == GapEnd(dsn, start) && result == before + dsn[start..i]
  {
    i, result := start, before;
    while i < |dsn| && dsn[i] == ' '
      invariant start <= i <= |dsn| && GapEnd(dsn, start) == GapEnd(dsn, i)
      invariant result == before + dsn[start..i]
    {
      result := result + [dsn[i]];
      i := i + 1;
    }
  }

  method ScanKey(dsn: string, start: nat) returns (i: nat)
    requires start <= |dsn|
    ensures start <= i <= |dsn| && i == SpanEnd(dsn, start, {'=', ' '})
    ensures i < |dsn| ==> dsn[i] == '=' || dsn[i] == ' '
  {
    i := start;
    while i < |dsn| && dsn[i] != '=' && dsn[i] != ' '
      invariant start <= i <= |dsn| && SpanEnd(dsn, start, {'=', ' '}) == SpanEnd(dsn, i, {'=', ' '})
    {
      i := i + 1;
    }
  }

  method KvDSNRedact(dsn: string) returns (r: Outcome)
    ensures r == Redact(dsn)
    ensures r.Text? ==>
      var ts, out := Tokens(dsn), Tokens(r.text);
      && |out| == |ts|
      && forall i :: 0 <= i < |ts| ==>
           out[i] ==
           if ts[i].Pair? && ts[i].key in {"password", "passfile"} then
             Pair(ts[i].key, if ts[i].value.kind == Plain then Value("xxxxx", Plain) else Value("'xxxxx'", Closed))
           else ts[i]
    ensures r.SliceOutOfRange? <==>
      var ts := Tokens(dsn);
      && ts != [] && ts[|ts| - 1].Pair?
      && ts[|ts| - 1].key !in {"password", "passfile"} && ts[|ts| - 1].value.kind == Dangling
  {
    var result: string := "";
    var i := 0;
    ProgressStart(dsn);
    OverrunExactly(dsn);
    while i < |dsn|
      invariant i <= |dsn| + 1 && Progress(dsn, i, result)
      decreases |dsn| - i
    {
      ghost var start, before := i, result;
      i, result := CopyGap(dsn, i, result);
      AfterGap(dsn, start, i, before);
      var keyStart := i;
      i := ScanKey(dsn, i);
      if i >= |dsn| || dsn[i] != '=' {
        AfterWord(dsn, keyStart, i, result);
        result := result + dsn[keyStart..i];
        continue;
      }
      FirstPair(dsn, keyStart, i);
      ghost var scan, unread := PairAtSign(dsn, keyStart, i), result;
      var inRange;
      inRange, result, i := RedactPair(dsn, keyStart, i, result);
      AfterPair(dsn, keyStart, scan, unread);
      if !inRange {
        return SliceOutOfRange;
      }
    }
    ProgressEnd(dsn, i, result);
    RedactionKeepsStructure(dsn);
    r := Text(result);
  }

  lemma ProgressStart(dsn: string)
    ensures Progress(dsn, 0, "")
  {
  }

  lemma ProgressEnd(dsn: string, i: nat, result: string)
    requires Progress(dsn, i, result) && |dsn| <= i
    ensures Redact(dsn) == Text(result)
  {
    assert result + "" == result;
  }

  lemma AfterGap(dsn: string, start: nat, i: nat, before: string)
    requires start < |dsn| && i == GapEnd(dsn, start) && Progress(dsn, start, before)
    ensures Progress(dsn, i, before + dsn[start..i]) && (i < |dsn| ==> dsn[i] != ' ')
  {
    GapEndMeans(dsn, start);
    if start < i {
      Advance(dsn, start, before);
    } else {
      assert before + dsn[start..i] == before;
    }
  }

  lemma AfterWord(dsn: string, start: nat, i: nat, before: string)
    requires start <= |dsn| && i == SpanEnd(dsn, start, {'=', ' '}) && Progress(dsn, start, before)
    requires start < |dsn| ==> dsn[start] != ' '
    requires i < |dsn| ==> dsn[i] == ' '
    ensures Progress(dsn, i, before + dsn[start..i])
  {
    if start < |dsn| {
      Advance(dsn, start, before);
    } else {
      assert before + dsn[start..i] == before;
    }
  }

  lemma PastTheEnd(dsn: string, result: string)
    requires Progress(dsn, |dsn|, result)
    ensures Progress(dsn, |dsn| + 1, result)
  {
  }

  lemma ValueEndStops(dsn: string, i: nat)
    requires i <= |dsn|
    ensures ValueEnd(dsn, i).1 == Dangling ==> ValueEnd(dsn, i).0 == |dsn|
  {
    if i < |dsn| {
      QuoteEndStops(dsn, i + 1);
    }
  }

  /** The pair whose equals sign is at i, as First reads it. */
  function PairAtSign(dsn: string, keyStart: nat, i: nat): (Token, nat)
    requires keyStart <= i < |dsn|
  {
    var (j, kind) := ValueEnd(dsn, i + 1);
    (Pair(dsn[keyStart..i], Value(dsn[i + 1..j], kind)), j)
  }

  function Reach(scan: (Token, nat)): nat {
    scan.1 + (if scan.0.Pair? && scan.0.value.kind == Dangling then 1 else 0)
  }

  lemma FirstPair(dsn: string, start: nat, i: nat)
    requires start <= i < |dsn| && i == SpanEnd(dsn, start, {'=', ' '})
    requires dsn[start] != ' ' && dsn[i] == '='
    ensures First(dsn, start) == PairAtSign(dsn, start, i)
  {
  }

  lemma AfterPair(dsn: string, start: nat, scan: (Token, nat), before: string)
    requires start < |dsn| && First(dsn, start) == scan && Progress(dsn, start, before)
    requires Reach(scan) != scan.1 ==> scan.1 == |dsn|
    ensures if Overruns(scan.0) then Redact(dsn) == SliceOutOfRange
            else Progress(dsn, Reach(scan), before + RenderToken(RedactToken(scan.0)))
  {
    Advance(dsn, start, before);
    if Reach(scan) != scan.1 && !Overruns(scan.0) {
      PastTheEnd(dsn, before + RenderToken(RedactToken(scan.0)));
    }
  }

  // ----- what redaction keeps and what it hides -----

  lemma MaskOk(v: Value)
    ensures ValueOk(Mask(v))
  {
    var q, p := "'xxxxx'", "xxxxx";
    assert QuoteEnd(q, 6) == (7, Closed);
    assert QuoteEnd(q, 4) == QuoteEnd(q, 5) == QuoteEnd(q, 6);
    assert QuoteEnd(q, 1) == QuoteEnd(q, 2) == QuoteEnd(q, 3) == QuoteEnd(q, 4);
    SpanEndIs(p, 0, p, {' '});
  }

  lemma {:induction false} RedactedWellFormed(ts: seq<Token>)
    requires WellFormed(ts)
    ensures WellFormed(Redacted(ts))
    ensures |Redacted(ts)| == |ts| && forall i :: 0 <= i < |ts| ==> Redacted(ts)[i] == RedactToken(ts[i])
  {
    if ts == [] {
    } else {
      if ts[0].Pair? {
        MaskOk(ts[0].value);
      }
      RedactedWellFormed(ts[1..]);
      assert Redacted(ts)[1..] == Redacted(ts[1..]);
    }
  }

  /** The redacted text reads back as the same keys, gaps and values, with every password and passfile masked
      in its quoting kind and nothing else touched. */
  lemma RedactionKeepsStructure(dsn: string)
    requires Redact(dsn).Text?
    ensures var ts, out := Tokens(dsn), Tokens(Redact(dsn).text);
      && |out| == |ts|
      && forall i :: 0 <= i < |ts| ==>
           out[i] ==
           if ts[i].Pair? && ts[i].key in {"password", "passfile"} then
             Pair(ts[i].key, if ts[i].value.kind == Plain then Value("xxxxx", Plain) else Value("'xxxxx'", Closed))
           else ts[i]
  {
    TokenizeWellFormed(dsn, 0);
    RedactedWellFormed(Tokens(dsn));
    TokenizeRender(Redacted(Tokens(dsn)));
  }

  /** Two tokens that may differ only in a sensitive value of the same quoting kind. */
  predicate SameButSecret(a: Token, b: Token) {
    || a == b
    || (a.Pair? && b.Pair? && a.key == b.key && a.key in {"password", "passfile"}
        && (a.value.kind == Plain <==> b.value.kind == Plain))
  }

  predicate SameButSecrets(a: seq<Token>, b: seq<Token>) {
    |a| == |b| && forall i :: 0 <= i < |a| ==> SameButSecret(a[i], b[i])
  }

  /** The output tells two connection strings apart exactly when something other than a secret does. */
  lemma SecretsIndistinguishable(a: string, b: string)
    requires Redact(a).Text? && Redact(b).Text?
    ensures Redact(a) == Redact(b) <==> SameButSecrets(Tokens(a), Tokens(b))
  {
    if Redact(a) == Redact(b) {
      RedactionKeepsStructure(a);
      RedactionKeepsStructure(b);
      forall i | 0 <= i < |Tokens(a)| ensures SameButSecret(Tokens(a)[i], Tokens(b)[i]) {
        assert RedactToken(Tokens(a)[i]) == RedactToken(Tokens(b)[i]);
      }
    }
    if SameButSecrets(Tokens(a), Tokens(b)) {
      SameRedacted(Tokens(a), Tokens(b));
    }
  }

  lemma {:induction false} SameRedacted(a: seq<Token>, b: seq<Token>)
    requires SameButSecrets(a, b)
    ensures Redacted(a) == Redacted(b)
  {
    if a == [] {
    } else {
      assert SameButSecret(a[0], b[0]);
      forall i | 0 <= i < |a[1..]| ensures SameButSecret(a[1..][i], b[1..][i]) {
        assert SameButSecret(a[i + 1], b[i + 1]);
      }
      SameRedacted(a[1..], b[1..]);
    }
  }

  lemma {:induction false} OverrunIndex(ts: seq<Token>)
    ensures SomeOverrun(ts) <==> exists i :: 0 <= i < |ts| && Overruns(ts[i])
  {
    if ts == [] {
    } else {
      OverrunIndex(ts[1..]);
      if i :| 0 <= i < |ts| && Overruns(ts[i]) && i > 0 {
        assert Overruns(ts[1..][i - 1]);
      }
      if j :| 0 <= j < |ts[1..]| && Overruns(ts[1..][j]) {
        assert Overruns(ts[j + 1]);
      }
    }
  }

  lemma {:induction false} NothingToRedact(ts: seq<Token>)
    requires forall i :: 0 <= i < |ts| ==> RedactToken(ts[i]) == ts[i]
    ensures Redacted(ts) == ts
  {
    if ts == [] {
    } else {
      NothingToRedact(ts[1..]);
    }
  }

  /** Redacting again changes nothing, and never slices out of range. */
  lemma RedactionIdempotent(dsn: string)
    requires Redact(dsn).Text?
    ensures Redact(Redact(dsn).text) == Redact(dsn)
  {
    RedactionKeepsStructure(dsn);
    var out := Redact(dsn).text;
    var ts, again := Tokens(dsn), Tokens(out);
    OverrunIndex(ts);
    OverrunIndex(again);
    forall i | 0 <= i < |again| ensures RedactToken(again[i]) == again[i] && !Overruns(again[i]) {
      assert again[i] == RedactToken(ts[i]) && !Overruns(ts[i]);
    }
    NothingToRedact(again);
    RenderTokenize(out, 0);
  }

  lemma {:induction false} DanglingIsLast(ts: seq<Token>)
    requires WellFormed(ts)
    ensures SomeOverrun(ts) <==> ts != [] && Overruns(ts[|ts| - 1])
  {
    if ts == [] {
    } else {
      DanglingIsLast(ts[1..]);
    }
  }

  /** The scanner slices out of range exactly when the last token is a copied quoted value that a lone
      backslash ends; for one, on an h, an equals sign, a quote and a backslash. */
  lemma OverrunExactly(dsn: string)
    ensures Redact(dsn) == SliceOutOfRange
      <==> var ts := Tokens(dsn);
        && ts != [] && ts[|ts| - 1].Pair?
        && ts[|ts| - 1].key !in {"password", "passfile"} && ts[|ts| - 1].value.kind == Dangling
    ensures Redact("h='\\") == SliceOutOfRange
  {
    TokenizeWellFormed(dsn, 0);
    DanglingIsLast(Tokens(dsn));
    var w := "h='\\";
    assert SpanEnd(w, 0, {'=', ' '}) == SpanEnd(w, 1, {'=', ' '}) == 1 && w[0..1] == "h";
    assert QuoteEnd(w, 3) == (4, Dangling);
    assert First(w, 0) == (Pair("h", Value(w[2..4], Dangling)), 4);
    assert Overruns(Tokens(w)[0]);
  }
}
