/** `escapeHtml`: the text of a record made safe for `innerHTML`. */
module Html {

  import opened Wrappers

  const Amp := "&amp;"
  const Lt := "&lt;"
  const Gt := "&gt;"
  const Quot := "&quot;"
  const Apos := "&#039;"

  /** The characters that are replaced by an entity. */
  predicate IsSpecial(c: char) {
    c == '&' || c == '<' || c == '>' || c == '"' || c == '\''
  }

  /** The replacement of one character. */
  function EscapeChar(c: char): string {
    if c == '&' then Amp
    else if c == '<' then Lt
    else if c == '>' then Gt
    else if c == '"' then Quot
    else if c == '\'' then Apos
    else [c]
  }

  /** `t` starts with one of the five entities. */
  predicate StartsEntity(t: string) {
    Amp <= t || Lt <= t || Gt <= t || Quot <= t || Apos <= t
  }

  /** The markup characters that never survive escaping. */
  predicate IsMarkup(c: char) {
    c == '<' || c == '>' || c == '"' || c == '\''
  }

  /** Every entity turned back into its character. */
  function Unescape(t: string): string
    decreases |t|
  {
    if t == [] then []
    else if Amp <= t then "&" + Unescape(t[|Amp|..])
    else if Lt <= t then "<" + Unescape(t[|Lt|..])
    else if Gt <= t then ">" + Unescape(t[|Gt|..])
    else if Quot <= t then "\"" + Unescape(t[|Quot|..])
    else if Apos <= t then "'" + Unescape(t[|Apos|..])
    else [t[0]] + Unescape(t[1..])
  }

  /** Escaping one character, in front of any text: no markup is produced, an
      `&` is produced only at the front of an entity, and unescaping undoes it. */
  lemma EscapeCharFront(c: char, rest: string)
    ensures var e := EscapeChar(c);
      && (forall i :: 0 <= i < |e| ==> !IsMarkup(e[i]))
      && (forall i :: 0 <= i < |e| && e[i] == '&' ==> i == 0 && StartsEntity(e + rest))
      && Unescape(e + rest) == [c] + Unescape(rest)
  {
    var e := EscapeChar(c);
    var t := e + rest;
    assert t[|e|..] == rest;
    if !IsSpecial(c) {
      assert t[0] == c && t[1..] == rest;
      assert !(Amp <= t) && !(Lt <= t) && !(Gt <= t) && !(Quot <= t) && !(Apos <= t);
    } else {
      assert t[1] == e[1];
      if c == '&' {
        assert Amp <= t;
      } else if c == '<' {
        assert !(Amp <= t) && Lt <= t;
      } else if c == '>' {
        assert !(Amp <= t) && !(Lt <= t) && Gt <= t;
      } else if c == '"' {
        assert !(Amp <= t) && !(Lt <= t) && !(Gt <= t) && Quot <= t;
      } else {
        assert !(Amp <= t) && !(Lt <= t) && !(Gt <= t) && !(Quot <= t) && Apos <= t;
      }
    }
  }

  /** Every character replaced by its entity, in one pass. The result holds
      no markup character, every `&` in it starts an entity, and unescaping
      it gives back the input. */
  function Escape(s: string): (r: string)
    ensures forall i :: 0 <= i < |r| ==> !IsMarkup(r[i])
    ensures forall i :: 0 <= i < |r| && r[i] == '&' ==> StartsEntity(r[i..])
    ensures Unescape(r) == s
  {
    if s == [] then []
    else
      var e := EscapeChar(s[0]);
      var rest := Escape(s[1..]);
      var r := e + rest;
      EscapeCharFront(s[0], rest);
      assert forall i :: |e| <= i < |r| ==> r[i..] == rest[i - |e|..];
      assert [s[0]] + s[1..] == s;
      r
  }

  /** `s.replaceAll(c, rep)` for a one-character pattern and a replacement without `$`. */
  function ReplaceAll(s: string, c: char, rep: string): (r: string)
    ensures c !in s ==> r == s
  {
    if s == [] then []
    else (if s[0] == c then rep else [s[0]]) + ReplaceAll(s[1..], c, rep)
  }

  /** The source's chain of five `replaceAll` calls, `&` first. */
  function ReplaceChain(s: string): string {
    var s1 := ReplaceAll(s, '&', Amp);
    var s2 := ReplaceAll(s1, '<', Lt);
    var s3 := ReplaceAll(s2, '>', Gt);
    var s4 := ReplaceAll(s3, '"', Quot);
    ReplaceAll(s4, '\'', Apos)
  }

  /** `escapeHtml(str)`: a missing value (null, undefined) or the empty
      string gives the empty string. */
  function EscapeHtml(str: Option<string>): (r: string)
    ensures str.None? ==> r == []
    ensures str == Some([]) ==> r == []
    ensures forall i :: 0 <= i < |r| ==> !IsMarkup(r[i])
    ensures forall i :: 0 <= i < |r| && r[i] == '&' ==> StartsEntity(r[i..])
    ensures str.Some? ==> Unescape(r) == str.value
  {
    match str
    case None => []
    case Some(s) =>
      ReplaceChainIsEscape(s);
      ReplaceChain(s)
  }

  lemma {:induction false} ReplaceAllAppend(a: string, b: string, c: char, rep: string)
    ensures ReplaceAll(a + b, c, rep) == ReplaceAll(a, c, rep) + ReplaceAll(b, c, rep)
  {
    if a != [] {
      assert (a + b)[1..] == a[1..] + b;
      ReplaceAllAppend(a[1..], b, c, rep);
    } else {
      assert a + b == b;
    }
  }

  lemma ReplaceChainAppend(a: string, b: string)
    ensures ReplaceChain(a + b) == ReplaceChain(a) + ReplaceChain(b)
  {
    var a1, b1 := ReplaceAll(a, '&', Amp), ReplaceAll(b, '&', Amp);
    ReplaceAllAppend(a, b, '&', Amp);
    var a2, b2 := ReplaceAll(a1, '<', Lt), ReplaceAll(b1, '<', Lt);
    ReplaceAllAppend(a1, b1, '<', Lt);
    var a3, b3 := ReplaceAll(a2, '>', Gt), ReplaceAll(b2, '>', Gt);
    ReplaceAllAppend(a2, b2, '>', Gt);
    var a4, b4 := ReplaceAll(a3, '"', Quot), ReplaceAll(b3, '"', Quot);
    ReplaceAllAppend(a3, b3, '"', Quot);
    ReplaceAllAppend(a4, b4, '\'', Apos);
  }

  lemma ReplaceAllOne(x: char, c: char, rep: string)
    ensures ReplaceAll([x], c, rep) == if x == c then rep else [x]
  {
    assert ReplaceAll([x], c, rep) == (if x == c then rep else [x]) + ReplaceAll([], c, rep);
  }

  /** No entity holds a character a later replacement looks for. */
  lemma EntitiesInert()
    ensures forall m :: m in {'<', '>', '"', '\''} ==> m !in Amp
    ensures forall m :: m in {'>', '"', '\''} ==> m !in Lt
    ensures forall m :: m in {'"', '\''} ==> m !in Gt
    ensures '\'' !in Quot
  {
  }

  /** Because `&` is replaced first, no later step rewrites an entity an
      earlier step produced. */
  lemma ReplaceChainChar(c: char)
    ensures ReplaceChain([c]) == EscapeChar(c)
  {
    EntitiesInert();
    var s1 := ReplaceAll([c], '&', Amp);
    ReplaceAllOne(c, '&', Amp);
    var s2 := ReplaceAll(s1, '<', Lt);
    if c != '&' { ReplaceAllOne(c, '<', Lt); }
    var s3 := ReplaceAll(s2, '>', Gt);
    if c != '&' && c != '<' { ReplaceAllOne(c, '>', Gt); }
    var s4 := ReplaceAll(s3, '"', Quot);
    if c != '&' && c != '<' && c != '>' { ReplaceAllOne(c, '"', Quot); }
    if !IsSpecial(c) || c == '\'' { ReplaceAllOne(c, '\'', Apos); }
  }

  /** The chain of replacements is the one-pass per-character escape. */
  lemma {:induction false} ReplaceChainIsEscape(s: string)
    ensures ReplaceChain(s) == Escape(s)
  {
    if s != [] {
      assert s == [s[0]] + s[1..];
      ReplaceChainAppend([s[0]], s[1..]);
      ReplaceChainChar(s[0]);
      ReplaceChainIsEscape(s[1..]);
    }
  }
}
