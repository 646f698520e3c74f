/** The pattern matcher of user/grep.c, and the language a pattern stands for. */
module Matcher {

  /** A part of a pattern: one character, or any number of them; '.' stands for every character. */
  datatype Item = One(c: char) | Star(c: char)

  predicate Fits(c: char, x: char) {
    c == '.' || c == x
  }

  /** The strings an item stands for. */
  ghost predicate InItem(i: Item, w: string) {
    match i
    case One(c) => |w| == 1 && Fits(c, w[0])
    case Star(c) => forall k :: 0 <= k < |w| ==> Fits(c, w[k])
  }

  /** The items of a pattern body: x* is a star, a single $ at the end is an anchor, all else one character. */
  function Items(re: string): (r: seq<Item>) {
    if re == "" then []
    else if |re| >= 2 && re[1] == '*' then [Star(re[0])] + Items(re[2..])
    else if re == "$" then []
    else [One(re[0])] + Items(re[1..])
  }

  /** The pattern body ends in an anchor. */
  predicate Anchored(re: string) {
    if re == "" then false
    else if |re| >= 2 && re[1] == '*' then Anchored(re[2..])
    else if re == "$" then true
    else Anchored(re[1..])
  }

  function Join(pieces: seq<string>): (w: string) {
    if pieces == [] then "" else pieces[0] + Join(pieces[1..])
  }

  /** w is a concatenation of one string for each item. */
  ghost predicate InLanguage(items: seq<Item>, w: string) {
    exists pieces :: Splits(items, w, pieces)
  }

  ghost predicate Splits(items: seq<Item>, w: string, pieces: seq<string>) {
    && |pieces| == |items| && Join(pieces) == w
    && (forall k :: 0 <= k < |items| ==> InItem(items[k], pieces[k]))
  }

  /** The first item takes the front of w, the others the rest. */
  lemma {:induction false} LanguageStep(i: Item, rest: seq<Item>, w: string)
    ensures InLanguage([i] + rest, w) <==> exists n: nat :: FrontFits(i, rest, w, n)
  {
    if InLanguage([i] + rest, w) {
      var pieces :| Splits([i] + rest, w, pieces);
      var n := |pieces[0]|;
      assert w[..n] == pieces[0] && w[n..] == Join(pieces[1..]);
      assert InItem(([i] + rest)[0], pieces[0]);
      assert forall k :: 0 <= k < |rest| ==> rest[k] == ([i] + rest)[k + 1] && pieces[1..][k] == pieces[k + 1];
      assert Splits(rest, w[n..], pieces[1..]);
      assert FrontFits(i, rest, w, n);
    }
    if n: nat :| FrontFits(i, rest, w, n) {
      var pieces :| Splits(rest, w[n..], pieces);
      var all := [w[..n]] + pieces;
      assert all[1..] == pieces && w == w[..n] + w[n..];
      forall k | 0 <= k < |all| ensures InItem(([i] + rest)[k], all[k]) {
        assert k > 0 ==> InItem(rest[k - 1], pieces[k - 1]);
      }
      assert Splits([i] + rest, w, all);
    }
  }

  ghost predicate FrontFits(i: Item, rest: seq<Item>, w: string, n: nat) {
    n <= |w| && InItem(i, w[..n]) && InLanguage(rest, w[n..])
  }

  lemma {:induction false} LanguageEmpty(w: string)
    ensures InLanguage([], w) <==> w == ""
  {
    assert w == "" ==> Splits([], w, []);
  }

  // ---- matching at one place

  /** Some front of text, all of it if the body is anchored, is in the language of the body. */
  ghost predicate HereSpec(re: string, text: string) {
    exists j: nat :: EndsAt(re, text, j)
  }

  ghost predicate EndsAt(re: string, text: string, j: nat) {
    j <= |text| && InLanguage(Items(re), text[..j]) && (Anchored(re) ==> j == |text|)
  }

  lemma {:induction false} HereEmpty(text: string)
    ensures HereSpec("", text)
  {
    LanguageEmpty("");
    assert text[..0] == "";
    assert EndsAt("", text, 0);
  }

  lemma {:induction false} HereEnd(text: string)
    ensures HereSpec("$", text) <==> text == ""
  {
    forall j: nat | j <= |text| ensures InLanguage([], text[..j]) <==> j == 0 {
      LanguageEmpty(text[..j]);
    }
    assert text == "" ==> EndsAt("$", text, 0);
  }

  /** One character first: the text starts with a character that fits, and the rest matches. */
  lemma {:induction false} HereOne(re: string, text: string)
    requires re != "" && !(|re| >= 2 && re[1] == '*') && re != "$"
    ensures HereSpec(re, text) <==> text != "" && Fits(re[0], text[0]) && HereSpec(re[1..], text[1..])
  {
    if j: nat :| EndsAt(re, text, j) {
      LanguageStep(One(re[0]), Items(re[1..]), text[..j]);
      var n: nat :| FrontFits(One(re[0]), Items(re[1..]), text[..j], n);
      assert text[..j][..n] == text[..n] && text[..j][n..] == text[1..][..j - 1];
      assert EndsAt(re[1..], text[1..], j - 1);
    }
    if text != "" && Fits(re[0], text[0]) && HereSpec(re[1..], text[1..]) {
      var j: nat :| EndsAt(re[1..], text[1..], j);
      var w := text[..j + 1];
      assert w[..1] == [text[0]] && w[1..] == text[1..][..j];
      assert FrontFits(One(re[0]), Items(re[1..]), w, 1);
      LanguageStep(One(re[0]), Items(re[1..]), w);
      assert EndsAt(re, text, j + 1);
    }
  }

  ghost predicate SkipsThen(c: char, re: string, text: string, n: nat) {
    n <= |text| && InItem(Star(c), text[..n]) && HereSpec(re, text[n..])
  }

  /** A star first: after some characters that fit, the rest matches. */
  lemma {:induction false} HereStar(re: string, text: string)
    requires |re| >= 2 && re[1] == '*'
    ensures HereSpec(re, text) <==> exists n: nat :: SkipsThen(re[0], re[2..], text, n)
  {
    if j: nat :| EndsAt(re, text, j) {
      LanguageStep(Star(re[0]), Items(re[2..]), text[..j]);
      var n: nat :| FrontFits(Star(re[0]), Items(re[2..]), text[..j], n);
      assert text[..j][..n] == text[..n] && text[..j][n..] == text[n..][..j - n];
      assert EndsAt(re[2..], text[n..], j - n);
      assert SkipsThen(re[0], re[2..], text, n);
    }
    if n: nat :| SkipsThen(re[0], re[2..], text, n) {
      var j: nat :| EndsAt(re[2..], text[n..], j);
      var w := text[..n + j];
      assert w[..n] == text[..n] && w[n..] == text[n..][..j];
      assert FrontFits(Star(re[0]), Items(re[2..]), w, n);
      LanguageStep(Star(re[0]), Items(re[2..]), w);
      assert EndsAt(re, text, n + j);
    }
  }

  /** matchhere. */
  method MatchHere(re: string, text: string) returns (r: bool)
    ensures r <==> HereSpec(re, text)
    decreases |re|, 0
  {
    if re == "" {
      HereEmpty(text);
      return true;
    }
    if |re| >= 2 && re[1] == '*' {
      HereStar(re, text);
      r := MatchStar(re[0], re[2..], text);
      return;
    }
    if re == "$" {
      HereEnd(text);
      return text == "";
    }
    HereOne(re, text);
    if text != "" && (re[0] == '.' || re[0] == text[0]) {
      r := MatchHere(re[1..], text[1..]);
      return;
    }
    return false;
  }

  /** matchstar. */
  method MatchStar(c: char, re: string, text: string) returns (r: bool)
    ensures r <==> exists n: nat :: SkipsThen(c, re, text, n)
    decreases |re|, 1
  {
    var i: nat := 0;
    while true
      invariant i <= |text| && InItem(Star(c), text[..i])
      invariant forall n: nat :: n < i ==> !SkipsThen(c, re, text, n)
      decreases |text| - i
    {
      var here := MatchHere(re, text[i..]);
      if here {
        assert SkipsThen(c, re, text, i);
        return true;
      }
      if i == |text| || !(text[i] == c || c == '.') {
        break;
      }
      assert text[..i + 1] == text[..i] + [text[i]];
      i := i + 1;
    }
    forall n: nat ensures !SkipsThen(c, re, text, n) {
      assert i < n <= |text| ==> text[..n][i] == text[i];
    }
    r := false;
  }

  // ---- matching anywhere

  /** Some part of text is in the pattern's language, at the front if the pattern starts with ^, reaching the end if
      its body ends with $. */
  ghost predicate MatchSpec(re: string, text: string) {
    if re != "" && re[0] == '^' then exists j: nat :: PartIn(re[1..], text, 0, j)
    else exists i: nat, j: nat :: PartIn(re, text, i, j)
  }

  ghost predicate PartIn(body: string, text: string, i: nat, j: nat) {
    i <= j <= |text| && InLanguage(Items(body), text[i..j]) && (Anchored(body) ==> j == |text|)
  }

  lemma {:induction false} PartHere(body: string, text: string, i: nat)
    requires i <= |text|
    ensures HereSpec(body, text[i..]) <==> exists j: nat :: PartIn(body, text, i, j)
  {
    forall j: nat ensures i <= j <= |text| ==> (PartIn(body, text, i, j) <==> EndsAt(body, text[i..], j - i)) {
      if i <= j <= |text| {
        assert text[i..][..j - i] == text[i..j];
      }
    }
    if j: nat :| EndsAt(body, text[i..], j) {
      assert text[i..][..j] == text[i..i + j];
      assert PartIn(body, text, i, i + j);
    }
  }

  /** match. */
  method Match(re: string, text: string) returns (r: bool)
    ensures r <==> MatchSpec(re, text)
  {
    if re != "" && re[0] == '^' {
      PartHere(re[1..], text, 0);
      assert text[0..] == text;
      r := MatchHere(re[1..], text);
      return;
    }
    var i: nat := 0;
    while true
      invariant i <= |text| && forall k: nat, j: nat :: k < i ==> !PartIn(re, text, k, j)
      decreases |text| - i
    {
      PartHere(re, text, i);
      var here := MatchHere(re, text[i..]);
      if here {
        return true;
      }
      if i == |text| {
        break;
      }
      i := i + 1;
    }
    r := false;
  }

  // ---- what patterns mean, said without items

  /** No character of the pattern is special. */
  predicate Plain(re: string) {
    forall k :: 0 <= k < |re| ==> re[k] !in ".*^$"
  }

  predicate OccursAt(re: string, text: string, i: nat) {
    i + |re| <= |text| && text[i..i + |re|] == re
  }

  lemma {:induction false} HerePlain(re: string, text: string)
    requires Plain(re)
    ensures HereSpec(re, text) <==> re <= text
    ensures HereSpec(re + "$", text) <==> text == re
  {
    if re == "" {
      HereEmpty(text);
      HereEnd(text);
      assert re + "$" == "$";
    } else {
      assert re[0] != '$' && (|re| >= 2 ==> re[1] != '*');
      HereOne(re, text);
      assert (re + "$")[1..] == re[1..] + "$" && (|re| == 1 ==> (re + "$")[1] == '$');
      HereOne(re + "$", text);
      if text != "" {
        HerePlain(re[1..], text[1..]);
        assert text == [text[0]] + text[1..] && re == [re[0]] + re[1..];
      }
    }
  }

  lemma {:induction false} MatchWhere(re: string, text: string)
    ensures MatchSpec("^" + re, text) <==> HereSpec(re, text)
    ensures !(re != "" && re[0] == '^') ==> (MatchSpec(re, text) <==> exists i: nat :: HereAt(re, text, i))
  {
    assert ("^" + re)[1..] == re && text[0..] == text;
    PartHere(re, text, 0);
    if !(re != "" && re[0] == '^') {
      if i: nat, j: nat :| PartIn(re, text, i, j) {
        PartHere(re, text, i);
        assert HereAt(re, text, i);
      }
      if i: nat :| HereAt(re, text, i) {
        PartHere(re, text, i);
      }
    }
  }

  ghost predicate HereAt(re: string, text: string, i: nat) {
    i <= |text| && HereSpec(re, text[i..])
  }

  /** A pattern without special characters is found exactly where it occurs; ^ ties it to the beginning of the line, $
      to its end, and both to the whole of it. */
  lemma {:induction false} PlainMatch(re: string, text: string)
    requires Plain(re)
    ensures MatchSpec(re, text) <==> exists i: nat :: OccursAt(re, text, i)
    ensures MatchSpec("^" + re, text) <==> OccursAt(re, text, 0)
    ensures MatchSpec(re + "$", text) <==> |re| <= |text| && OccursAt(re, text, |text| - |re|)
    ensures MatchSpec("^" + re + "$", text) <==> text == re
  {
    MatchWhere(re, text);
    MatchWhere(re + "$", text);
    HerePlain(re, text);
    assert "^" + re + "$" == "^" + (re + "$");
    forall i: nat | i <= |text|
      ensures HereAt(re, text, i) <==> OccursAt(re, text, i)
      ensures HereAt(re + "$", text, i) <==> i + |re| == |text| && OccursAt(re, text, i)
    {
      HerePlain(re, text[i..]);
      assert re <= text[i..] <==> OccursAt(re, text, i);
      assert text[i..] == re <==> i + |re| == |text| && OccursAt(re, text, i);
    }
  }

  /** A dot stands for any one character, and a star for any number of what is before it, also none. */
  lemma {:induction false} DotAndStar(c: char, text: string)
    ensures MatchSpec("^.$", text) <==> |text| == 1
    ensures MatchSpec("^.*$", text)
    ensures Plain([c]) ==> (MatchSpec("^" + [c] + "*$", text) <==> forall k :: 0 <= k < |text| ==> text[k] == c)
  {
    assert "^.$" == "^" + ".$" && "^.*$" == "^" + ".*$" && "^" + [c] + "*$" == "^" + ([c] + "*$");
    MatchWhere(".$", text);
    MatchWhere(".*$", text);
    MatchWhere([c] + "*$", text);
    HereOne(".$", text);
    if text != "" {
      assert ".$"[1..] == "$";
      HereEnd(text[1..]);
    }
    StarEnd('.', text);
    StarEnd(c, text);
    assert ".*$" == "." + "*$";
  }

  lemma {:induction false} StarEnd(c: char, text: string)
    ensures HereSpec([c] + "*$", text) <==> forall k :: 0 <= k < |text| ==> Fits(c, text[k])
  {
    var re := [c] + "*$";
    assert re[0] == c && re[1] == '*' && re[2..] == "$";
    HereStar(re, text);
    forall n: nat | n <= |text| ensures HereSpec("$", text[n..]) <==> n == |text| {
      HereEnd(text[n..]);
    }
    assert text[..|text|] == text;
    assert SkipsThen(c, "$", text, |text|) <==> InItem(Star(c), text);
  }
}
