/** The quiz application's HTML entity decoder: a fixed chain of five
    literal replace-alls, together with the five-entity encoding as its
    partner. */
module HtmlEntities {

  /** Replaces every occurrence of `pat` in `s` by `rep`, scanning left to
      right and never overlapping, as Java's String.replaceAll does for a
      pattern and replacement free of regex metacharacters, `$` and `\`. */
  function ReplaceAll(s: string, pat: string, rep: string): (r: string)
    requires |pat| > 0
    ensures |rep| <= |pat| ==> |r| <= |s|
    decreases |s|
  {
    if |s| < |pat| then s
    else if s[..|pat|] == pat then rep + ReplaceAll(s[|pat|..], pat, rep)
    else [s[0]] + ReplaceAll(s[1..], pat, rep)
  }

  /** An entity the decoder knows: its escaped spelling and the character it stands for. */
  datatype Entity = Entity(name: string, ch: char)

  /** The entities in the order the decoder replaces them. */
  const Entities: seq<Entity> := [
    Entity("&quot;", '"'),
    Entity("&#039;", '\''),
    Entity("&amp;", '&'),
    Entity("&lt;", '<'),
    Entity("&gt;", '>')
  ]

  /** The decoder: `&quot;`, `&#039;`, `&amp;`, `&lt;`, `&gt;` replaced in that order. */
  function HtmlDecode(text: string): (r: string)
    ensures |r| <= |text|
  {
    var t := ReplaceAll(text, "&quot;", "\"");
    var t := ReplaceAll(t, "&#039;", "'");
    var t := ReplaceAll(t, "&amp;", "&");
    var t := ReplaceAll(t, "&lt;", "<");
    ReplaceAll(t, "&gt;", ">")
  }

  /** Position in `Entities` of the entity standing for `c`, or -1. */
  function EntityIndex(c: char): (r: int)
    ensures -1 <= r < |Entities|
    ensures r >= 0 ==> Entities[r].ch == c
    ensures r == -1 <==> forall i :: 0 <= i < |Entities| ==> Entities[i].ch != c
  {
    if c == '"' then 0
    else if c == '\'' then 1
    else if c == '&' then 2
    else if c == '<' then 3
    else if c == '>' then 4
    else -1
  }

  /** The five-entity encoding of `s`, restricted to the entities from
      position `k` on: a character whose entity comes earlier in the decode
      order is left as it is. */
  function EscapeFrom(s: string, k: nat): string
  {
    if |s| == 0 then []
    else
      var i := EntityIndex(s[0]);
      (if i >= k then Entities[i].name else [s[0]]) + EscapeFrom(s[1..], k)
  }

  /** The five-entity encoding of a text: every character the decoder
      knows is written as its entity, and nothing else is escaped. */
  function Escape(s: string): string
  {
    EscapeFrom(s, 0)
  }

  /** Replacing in `u + t` leaves a prefix `u` alone when no character of
      `u` can start the pattern. */
  lemma {:induction false} ReplaceAllSkipsPrefix(u: string, t: string, pat: string, rep: string)
    requires |pat| > 0
    requires forall i :: 0 <= i < |u| ==> u[i] != pat[0]
    ensures ReplaceAll(u + t, pat, rep) == u + ReplaceAll(t, pat, rep)
    decreases |u|
  {
    if |u| == 0 {
      assert u + t == t;
    } else if |u + t| < |pat| {
      assert ReplaceAll(t, pat, rep) == t;
    } else {
      assert (u + t)[..|pat|][0] == u[0];
      assert (u + t)[1..] == u[1..] + t;
      ReplaceAllSkipsPrefix(u[1..], t, pat, rep);
      assert [u[0]] + u[1..] == u;
    }
  }

  /** A leading occurrence of the pattern is replaced. */
  lemma ReplaceAllLeadingMatch(t: string, pat: string, rep: string)
    requires |pat| > 0
    ensures ReplaceAll(pat + t, pat, rep) == rep + ReplaceAll(t, pat, rep)
  {
    assert (pat + t)[..|pat|] == pat;
    assert (pat + t)[|pat|..] == t;
  }

  /** A leading character where the pattern does not start is kept. */
  lemma ReplaceAllKeepsHead(c: char, t: string, pat: string, rep: string)
    requires |pat| > 0
    requires !(|pat| <= 1 + |t| && ([c] + t)[..|pat|] == pat)
    ensures ReplaceAll([c] + t, pat, rep) == [c] + ReplaceAll(t, pat, rep)
  {
    assert ([c] + t)[1..] == t;
    if 1 + |t| < |pat| {
      assert ReplaceAll(t, pat, rep) == t;
    }
  }

  /** A word whose second character differs from the pattern's, and whose
      later characters cannot start it, passes through unchanged. */
  lemma ReplaceAllSkipsWord(e: string, t: string, pat: string, rep: string)
    requires |e| >= 2 && |pat| >= 2 && e[1] != pat[1]
    requires forall j :: 1 <= j < |e| ==> e[j] != pat[0]
    ensures ReplaceAll(e + t, pat, rep) == e + ReplaceAll(t, pat, rep)
  {
    var w := e[1..];
    var v := w + t;
    assert e + t == [e[0]] + v;
    if |pat| <= 1 + |v| {
      assert ([e[0]] + v)[..|pat|][1] == w[0] == e[1];
    }
    ReplaceAllKeepsHead(e[0], v, pat, rep);
    assert forall i :: 0 <= i < |w| ==> w[i] == e[i + 1];
    ReplaceAllSkipsPrefix(w, t, pat, rep);
    assert [e[0]] + w == e;
  }

  /** Every entity starts with `&` and has no other `&`. */
  lemma EntityShape(i: nat)
    requires i < |Entities|
    ensures |Entities[i].name| >= 2 && Entities[i].name[0] == '&'
    ensures forall j :: 1 <= j < |Entities[i].name| ==> Entities[i].name[j] != '&'
  {
  }

  /** Two entities already differ in their second character. */
  lemma EntitiesDiffer(i: nat, k: nat)
    requires i < |Entities| && k < |Entities| && i != k
    ensures Entities[i].name[1] != Entities[k].name[1]
  {
  }

  /** An entity other than the pattern passes through a replacement unchanged. */
  lemma ReplaceAllSkipsOtherEntity(t: string, i: nat, k: nat)
    requires i < |Entities| && k < |Entities| && i != k
    ensures ReplaceAll(Entities[i].name + t, Entities[k].name, [Entities[k].ch])
         == Entities[i].name + ReplaceAll(t, Entities[k].name, [Entities[k].ch])
  {
    EntityShape(i);
    EntityShape(k);
    EntitiesDiffer(i, k);
    ReplaceAllSkipsWord(Entities[i].name, t, Entities[k].name, [Entities[k].ch]);
  }

  /** `pat` occurs somewhere in `s`. */
  predicate Occurs(s: string, pat: string)
  {
    exists i | 0 <= i <= |s| :: MatchesAt(s, pat, i)
  }

  /** `pat` occurs in `s` starting at position `i`. */
  predicate MatchesAt(s: string, pat: string, i: int)
  {
    0 <= i && i + |pat| <= |s| && s[i..i + |pat|] == pat
  }

  /** Characters that are not entity characters pass through the encoding
      as themselves, so an encoding that starts with such a word came from
      a text that starts with it. */
  lemma {:induction false} EscapeFromPlainPrefix(s: string, k: nat, w: string)
    requires forall j :: 0 <= j < |w| ==> EntityIndex(w[j]) == -1
    requires |w| <= |EscapeFrom(s, k)| && EscapeFrom(s, k)[..|w|] == w
    ensures |w| <= |s| && s[..|w|] == w
    decreases |w|
  {
    if |w| > 0 {
      var e := EscapeFrom(s, k);
      assert |s| > 0;
      if EntityIndex(s[0]) >= k {
        EntityShape(EntityIndex(s[0]));
        assert false;
      }
      assert e == [s[0]] + EscapeFrom(s[1..], k);
      assert s[0] == w[0];
      assert EscapeFrom(s[1..], k)[..|w| - 1] == w[1..];
      EscapeFromPlainPrefix(s[1..], k, w[1..]);
      assert s[..|w|] == [s[0]] + s[1..][..|w| - 1];
    }
  }

  /** After its `&`, the `&lt;` or `&gt;` entity holds no entity character. */
  lemma EntityTailIsPlain(k: nat)
    requires k == 3 || k == 4
    ensures |Entities[k].name| >= 1
    ensures forall j :: 0 <= j < |Entities[k].name[1..]| ==> EntityIndex(Entities[k].name[1..][j]) == -1
  {
    var tail := Entities[k].name[1..];
    assert tail == "lt;" || tail == "gt;";
  }

  /** A raw `&` followed by the encoding of `rest` can only spell the
      `&lt;` or `&gt;` entity when `&` followed by `rest` already does. */
  lemma AmpersandMatchIsRaw(rest: string, k: nat)
    requires k == 3 || k == 4
    ensures var pat, e := Entities[k].name, EscapeFrom(rest, k);
      |pat| <= 1 + |e| && ("&" + e)[..|pat|] == pat ==> MatchesAt("&" + rest, pat, 0)
  {
    var pat := Entities[k].name;
    var e := EscapeFrom(rest, k);
    if |pat| <= 1 + |e| && ("&" + e)[..|pat|] == pat {
      var tail := pat[1..];
      EntityTailIsPlain(k);
      assert e[..|tail|] == tail;
      EscapeFromPlainPrefix(rest, k, tail);
      assert ("&" + rest)[0..0 + |pat|] == "&" + rest[..|tail|];
    }
  }

  /** The `&lt;` and `&gt;` steps leave a raw `&` of the text alone when the
      text does not go on to spell the entity. */
  lemma RawAmpersandSurvives(rest: string, k: nat)
    requires k == 3 || k == 4
    requires !Occurs("&" + rest, Entities[k].name)
    ensures ReplaceAll("&" + EscapeFrom(rest, k), Entities[k].name, [Entities[k].ch])
         == "&" + ReplaceAll(EscapeFrom(rest, k), Entities[k].name, [Entities[k].ch])
  {
    AmpersandMatchIsRaw(rest, k);
    ReplaceAllKeepsHead('&', EscapeFrom(rest, k), Entities[k].name, [Entities[k].ch]);
  }

  /** An occurrence in the tail of a text is an occurrence in the text. */
  lemma OccursInTail(s: string, pat: string)
    requires |s| > 0
    ensures Occurs(s[1..], pat) ==> Occurs(s, pat)
  {
    if Occurs(s[1..], pat) {
      var rest := s[1..];
      var j :| 0 <= j <= |rest| && MatchesAt(rest, pat, j);
      assert s[j + 1..j + 1 + |pat|] == rest[j..j + |pat|];
      assert MatchesAt(s, pat, j + 1);
    }
  }

  /** One step of the decoder undoes one entity of the encoding. The first
      three steps do so on every text; the `&lt;` and `&gt;` steps run after
      `&amp;` has been restored, so they need the text not to contain the
      entity they decode. */
  lemma {:induction false} DecodeStep(s: string, k: nat)
    requires k < |Entities|
    requires k >= 3 ==> !Occurs(s, Entities[k].name)
    ensures ReplaceAll(EscapeFrom(s, k), Entities[k].name, [Entities[k].ch]) == EscapeFrom(s, k + 1)
    decreases |s|
  {
    var pat, rep := Entities[k].name, [Entities[k].ch];
    EntityShape(k);
    if |s| > 0 {
      var c, rest := s[0], s[1..];
      OccursInTail(s, pat);
      var i := EntityIndex(c);
      DecodeStep(rest, k);
      var e := EscapeFrom(rest, k);
      if i == k {
        ReplaceAllLeadingMatch(e, pat, rep);
      } else if i > k {
        ReplaceAllSkipsOtherEntity(e, i, k);
      } else if c != '&' {
        ReplaceAllSkipsPrefix([c], e, pat, rep);
      } else {
        assert s == "&" + rest;
        RawAmpersandSurvives(rest, k);
      }
    }
  }

  /** Past the last entity the encoding changes nothing. */
  lemma {:induction false} EscapeFromEndIsIdentity(s: string)
    ensures EscapeFrom(s, |Entities|) == s
    decreases |s|
  {
    if |s| > 0 {
      EscapeFromEndIsIdentity(s[1..]);
      assert [s[0]] + s[1..] == s;
    }
  }

  /** Step `k` of the decoder: replace entity `k` by its character. */
  function DecodeEntity(t: string, k: nat): string
    requires k < |Entities|
  {
    ReplaceAll(t, Entities[k].name, [Entities[k].ch])
  }

  /** The decoder is the five steps in order. */
  lemma HtmlDecodeIsSteps(text: string)
    ensures HtmlDecode(text)
         == DecodeEntity(DecodeEntity(DecodeEntity(DecodeEntity(DecodeEntity(text, 0), 1), 2), 3), 4)
  {
    assert Entities[0] == Entity("&quot;", '"') && Entities[1] == Entity("&#039;", '\'');
    assert Entities[2] == Entity("&amp;", '&') && Entities[3] == Entity("&lt;", '<');
    assert Entities[4] == Entity("&gt;", '>');
  }

  /** Decoding undoes the five-entity encoding on every text that does not
      itself contain `&lt;` or `&gt;`. */
  lemma DecodeInvertsEscape(s: string)
    requires !Occurs(s, "&lt;") && !Occurs(s, "&gt;")
    ensures HtmlDecode(Escape(s)) == s
  {
    HtmlDecodeIsSteps(Escape(s));
    assert Entities[3].name == "&lt;" && Entities[4].name == "&gt;";
    DecodeStep(s, 0);
    DecodeStep(s, 1);
    DecodeStep(s, 2);
    DecodeStep(s, 3);
    DecodeStep(s, 4);
    EscapeFromEndIsIdentity(s);
  }

  /** A text with no `&` comes out of the decoder unchanged. */
  lemma DecodeKeepsPlainText(text: string)
    requires '&' !in text
    ensures HtmlDecode(text) == text
  {
    HtmlDecodeIsSteps(text);
    forall k | 0 <= k < |Entities|
      ensures DecodeEntity(text, k) == text
    {
      EntityShape(k);
      ReplaceAllSkipsPrefix(text, [], Entities[k].name, [Entities[k].ch]);
      assert text + [] == text;
    }
  }

  /** The encoding of the four characters `&lt;` is `&amp;lt;`. */
  lemma EscapeAmpLt()
    ensures Escape("&lt;") == "&amp;lt;"
  {
    var s := "&lt;";
    assert EscapeFrom(s[3..], 0) == ";" + EscapeFrom([], 0);
    assert EscapeFrom(s[2..], 0) == "t;";
    assert EscapeFrom(s[1..], 0) == "lt;";
  }

  /** The first two decoding steps leave `&amp;lt;` alone. */
  lemma AmpLtSurvivesFirstSteps(k: nat)
    requires k < 2
    ensures DecodeEntity("&amp;lt;", k) == "&amp;lt;"
  {
    var lt := "lt;";
    assert "&amp;lt;" == Entities[2].name + lt;
    ReplaceAllSkipsOtherEntity(lt, 2, k);
    EntityShape(k);
    ReplaceAllSkipsPrefix(lt, [], Entities[k].name, [Entities[k].ch]);
    assert lt + [] == lt;
  }

  /** The `&amp;` step turns `&amp;lt;` into `&lt;`. */
  lemma AmpStepOnAmpLt()
    ensures DecodeEntity("&amp;lt;", 2) == "&lt;"
  {
    var lt := "lt;";
    assert "&amp;lt;" == Entities[2].name + lt;
    ReplaceAllLeadingMatch(lt, Entities[2].name, [Entities[2].ch]);
    EntityShape(2);
    ReplaceAllSkipsPrefix(lt, [], Entities[2].name, [Entities[2].ch]);
    assert lt + [] == lt;
    assert [Entities[2].ch] + lt == "&lt;";
  }

  /** The last two steps turn `&lt;` into `<`. */
  lemma LastStepsOnLt()
    ensures DecodeEntity(DecodeEntity("&lt;", 3), 4) == "<"
  {
    assert "&lt;" == Entities[3].name + [];
    ReplaceAllLeadingMatch([], Entities[3].name, [Entities[3].ch]);
    assert DecodeEntity("&lt;", 3) == "<";
    EntityShape(4);
    ReplaceAllSkipsPrefix("<", [], Entities[4].name, [Entities[4].ch]);
    assert "<" + [] == "<";
  }

  /** Because `&amp;` is decoded before `&lt;`, the encoding of the text
      `&lt;` is decoded twice and comes back as `<`. */
  lemma DoubleDecoding()
    ensures HtmlDecode(Escape("&lt;")) == "<"
  {
    EscapeAmpLt();
    HtmlDecodeIsSteps("&amp;lt;");
    AmpLtSurvivesFirstSteps(0);
    AmpLtSurvivesFirstSteps(1);
    AmpStepOnAmpLt();
    LastStepsOnLt();
  }
}
