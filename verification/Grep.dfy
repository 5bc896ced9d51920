/**
The regular-expression matcher of grep.c against its language.  A pattern reads as a list of items;
the text matches from position t when it can be cut into pieces, one per item in order, starting at t.
*/
module Grep {
  /** A character ('.' for any), a starred character, or the '$' that ends a pattern. */
  datatype Item = One(c: char) | Star(c: char) | End

  /** How matchhere reads a pattern: '*' stars the character before it, '$' is special only at the end. */
  function Items(re: string): (items: seq<Item>) {
    if re == "" then []
    else if |re| >= 2 && re[1] == '*' then [Star(re[0])] + Items(re[2..])
    else if re == "$" then [End]
    else [One(re[0])] + Items(re[1..])
  }

  predicate CharOk(c: char, x: char) { c == '.' || c == x }

  /** text[t..u] is a piece for the item. */
  ghost predicate PieceOk(x: Item, text: string, t: nat, u: nat)
    requires t <= u <= |text|
  {
    match x
    case One(c) => u == t + 1 && CharOk(c, text[t])
    case Star(c) => forall k | t <= k < u :: CharOk(c, text[k])
    case End => t == u == |text|
  }

  ghost predicate CutOk(items: seq<Item>, text: string, cuts: seq<nat>, k: nat)
    requires |cuts| == |items| + 1 && k < |items|
  {
    cuts[k] <= cuts[k + 1] <= |text| && PieceOk(items[k], text, cuts[k], cuts[k + 1])
  }

  ghost predicate ValidCuts(items: seq<Item>, text: string, cuts: seq<nat>) {
    |cuts| == |items| + 1 && cuts[|items|] <= |text| && forall k: nat | k < |items| :: CutOk(items, text, cuts, k)
  }

  /** Some cutting of the text from t on matches all items. */
  ghost predicate MatchesFrom(items: seq<Item>, text: string, t: nat) {
    exists cuts: seq<nat> :: ValidCuts(items, text, cuts) && cuts[0] == t
  }

  /** The specification of match: from the start of the text after '^', from anywhere otherwise. */
  ghost predicate Matches(re: string, text: string) {
    if re != "" && re[0] == '^' then MatchesFrom(Items(re[1..]), text, 0)
    else exists t: nat :: t <= |text| && MatchesFrom(Items(re), text, t)
  }

  lemma {:induction false} NoItems(text: string, t: nat)
    ensures MatchesFrom([], text, t) <==> t <= |text|
  {
    if t <= |text| {
      assert ValidCuts([], text, [t]);
    }
  }

  /** The first item takes a piece, the rest match after it. */
  lemma {:induction false} FirstItem(x: Item, rest: seq<Item>, text: string, t: nat)
    ensures MatchesFrom([x] + rest, text, t) <==>
            exists u: nat :: t <= u <= |text| && PieceOk(x, text, t, u) && MatchesFrom(rest, text, u)
  {
    var items := [x] + rest;
    if MatchesFrom(items, text, t) {
      var cuts: seq<nat> :| ValidCuts(items, text, cuts) && cuts[0] == t;
      assert CutOk(items, text, cuts, 0);
      forall k: nat | k < |rest| ensures CutOk(rest, text, cuts[1..], k) {
        assert CutOk(items, text, cuts, k + 1);
      }
      assert ValidCuts(rest, text, cuts[1..]);
    }
    if u: nat :| t <= u <= |text| && PieceOk(x, text, t, u) && MatchesFrom(rest, text, u) {
      var cuts: seq<nat> :| ValidCuts(rest, text, cuts) && cuts[0] == u;
      var all := [t] + cuts;
      forall k: nat | k < |items| ensures CutOk(items, text, all, k) {
        assert k > 0 ==> CutOk(rest, text, cuts, k - 1);
      }
      assert ValidCuts(items, text, all);
    }
  }

  /** match. */
  method Match(re: string, text: string) returns (r: bool)
    ensures r <==> Matches(re, text)
  {
    if re != "" && re[0] == '^' {
      r := MatchHere(re, 1, text, 0);
      return;
    }
    var t := 0;
    assert re[0..] == re;
    while true
      invariant 0 <= t <= |text| && forall u: nat | u < t :: !MatchesFrom(Items(re), text, u)
      decreases |text| - t
    {
      r := MatchHere(re, 0, text, t);
      if r || t == |text| {
        return;
      }
      t := t + 1;
    }
  }

  /** matchhere, with positions for its two pointers. */
  method MatchHere(re: string, r: nat, text: string, t: nat) returns (ok: bool)
    requires r <= |re| && t <= |text|
    ensures ok <==> MatchesFrom(Items(re[r..]), text, t)
    decreases |re| - r, 0
  {
    var rest := re[r..];
    if r == |re| {
      NoItems(text, t);
      return true;
    }
    if r + 1 < |re| && re[r + 1] == '*' {
      assert rest[2..] == re[r + 2..];
      ok := MatchStar(re[r], re, r + 2, text, t);
      return;
    }
    if re[r] == '$' && r + 1 == |re| {
      AtEnd(text, t);
      return t == |text|;
    }
    assert rest[1..] == re[r + 1..];
    FirstItem(One(re[r]), Items(re[r + 1..]), text, t);
    if t < |text| && (re[r] == '.' || re[r] == text[t]) {
      assert PieceOk(One(re[r]), text, t, t + 1);
      ok := MatchHere(re, r + 1, text, t + 1);
      return;
    }
    return false;
  }

  /** matchstar: c* and then the pattern from r on. */
  method MatchStar(c: char, re: string, r: nat, text: string, t: nat) returns (ok: bool)
    requires r <= |re| && t <= |text|
    ensures ok <==> MatchesFrom([Star(c)] + Items(re[r..]), text, t)
    decreases |re| - r, 1
  {
    ghost var rest := Items(re[r..]);
    FirstItem(Star(c), rest, text, t);
    var u := t;
    while true
      invariant t <= u <= |text| && PieceOk(Star(c), text, t, u)
      invariant forall k: nat | t <= k < u :: !MatchesFrom(rest, text, k)
      decreases |text| - u
    {
      ok := MatchHere(re, r, text, u);
      if ok {
        return true;
      }
      if u == |text| || !(text[u] == c || c == '.') {
        return false;
      }
      u := u + 1;
    }
  }

  lemma {:induction false} AtEnd(text: string, t: nat)
    requires t <= |text|
    ensures MatchesFrom([End], text, t) <==> t == |text|
  {
    FirstItem(End, [], text, t);
    NoItems(text, t);
    assert [End] + [] == [End];
  }

  // ---------- Reading patterns ----------

  function ItemText(x: Item): (s: string) {
    match x case One(c) => [c] case Star(c) => [c, '*'] case End => "$"
  }

  /** The items written one after another. */
  function Print(items: seq<Item>): (re: string) {
    if items == [] then "" else ItemText(items[0]) + Print(items[1..])
  }

  /**
  The item lists that patterns denote: "$" as an item comes last, a last "$" is that item, and no
  character stands before a "*" that is not its star.
  */
  ghost predicate Denotable(items: seq<Item>) {
    && (forall k: nat | k < |items| && items[k] == End :: k == |items| - 1)
    && (forall k: nat | k < |items| && items[k] == One('$') :: k < |items| - 1)
    && (forall k: nat | k + 1 < |items| && items[k].One? :: ItemText(items[k + 1])[0] != '*')
  }

  /** Every such list is what its printing is read as. */
  lemma {:induction false} ItemsPrint(items: seq<Item>)
    requires Denotable(items)
    ensures Items(Print(items)) == items
  {
    hide Denotable;
    if items != [] {
      DenotableRest(items);
      ItemsPrint(items[1..]);
      ReadFirst(items);
    }
  }

  lemma {:induction false} DenotableRest(items: seq<Item>)
    requires Denotable(items) && items != []
    ensures Denotable(items[1..])
  {
    var rest := items[1..];
    forall k: nat | k + 1 < |rest| && rest[k].One? ensures ItemText(rest[k + 1])[0] != '*' {
      assert items[k + 1].One?;
    }
  }

  /** The first item is read off the front. */
  lemma {:induction false} ReadFirst(items: seq<Item>)
    requires Denotable(items) && items != []
    ensures Items(Print(items)) == [items[0]] + Items(Print(items[1..]))
  {
    var x, rest, re := items[0], items[1..], Print(items);
    assert re[|ItemText(x)|..] == Print(rest);
    if rest != [] {
      assert Print(rest)[0] == ItemText(rest[0])[0];
      assert x.One? ==> ItemText(items[0 + 1])[0] != '*';
    } else {
      assert Print(rest) == "" && items == [x];
    }
  }

  /** And every pattern is the printing of such a list. */
  lemma {:induction false} PrintItems(re: string)
    ensures Denotable(Items(re)) && Print(Items(re)) == re
  {
    var items := Items(re);
    if re != "" {
      var x, rest := items[0], items[1..];
      var n := |ItemText(x)|;
      assert re[..n] == ItemText(x) && rest == Items(re[n..]);
      PrintItems(re[n..]);
      assert re == re[..n] + re[n..];
      forall k: nat | k + 1 < |items| && items[k].One? ensures ItemText(items[k + 1])[0] != '*' {
        if k == 0 {
          assert Print(rest)[0] == ItemText(rest[0])[0];
        } else {
          assert rest[k - 1].One?;
        }
      }
      forall k: nat | k < |items| && items[k] == End ensures k == |items| - 1 {
        assert k > 0 ==> rest[k - 1] == End;
      }
      forall k: nat | k < |items| && items[k] == One('$') ensures k < |items| - 1 {
        assert k > 0 ==> rest[k - 1] == One('$');
      }
    }
  }

  // ---------- What patterns mean ----------

  /** A word without special characters. */
  predicate Literal(w: string) { forall k | 0 <= k < |w| :: w[k] != '^' && w[k] != '$' && w[k] != '.' && w[k] != '*' }

  /** `text` has w at position t. */
  predicate Occurs(w: string, text: string, t: nat) { t + |w| <= |text| && text[t..t + |w|] == w }

  /** A literal word in front of a pattern that does not star its last character reads as itself. */
  lemma {:induction false} WordThen(w: string, re: string, text: string, t: nat)
    requires Literal(w) && t <= |text| && (w == "" || re == "" || re[0] != '*')
    ensures MatchesFrom(Items(w + re), text, t) <==> Occurs(w, text, t) && MatchesFrom(Items(re), text, t + |w|)
    decreases |w|
  {
    hide Items, MatchesFrom;
    if w == "" {
      assert w + re == re;
    } else {
      var rest := w[1..] + re;
      ReadOne(w, re);
      FirstItem(One(w[0]), Items(rest), text, t);
      if t < |text| {
        WordThen(w[1..], re, text, t + 1);
        OccursNext(w, text, t);
        assert PieceOk(One(w[0]), text, t, t + 1) <==> text[t] == w[0];
      }
    }
  }

  lemma {:induction false} ReadOne(w: string, re: string)
    requires Literal(w) && w != "" && (re == "" || re[0] != '*')
    ensures Items(w + re) == [One(w[0])] + Items(w[1..] + re)
  {
    assert (w + re)[1..] == w[1..] + re && (w + re)[0] == w[0];
  }

  lemma {:induction false} OccursNext(w: string, text: string, t: nat)
    requires w != "" && t < |text|
    ensures Occurs(w, text, t) <==> text[t] == w[0] && Occurs(w[1..], text, t + 1)
  {
    if t + |w| <= |text| {
      assert text[t..t + |w|] == [text[t]] + text[t + 1..t + |w|] && w == [w[0]] + w[1..];
    }
  }

  lemma {:induction false} NothingMore(text: string, t: nat)
    ensures MatchesFrom(Items(""), text, t) <==> t <= |text|
    ensures t <= |text| ==> (MatchesFrom(Items("$"), text, t) <==> t == |text|)
  {
    NoItems(text, t);
    if t <= |text| {
      AtEnd(text, t);
    }
  }

  lemma {:induction false} WordOnly(w: string, text: string, t: nat)
    requires Literal(w) && t <= |text|
    ensures MatchesFrom(Items(w), text, t) <==> Occurs(w, text, t)
    ensures MatchesFrom(Items(w + "$"), text, t) <==> Occurs(w, text, t) && t + |w| == |text|
  {
    WordThen(w, "", text, t);
    WordThen(w, "$", text, t);
    assert w + "" == w;
    NothingMore(text, t + |w|);
  }

  /** A literal word is found where it occurs; "^" and "$" tie it to the start and to the end. */
  lemma {:induction false} WordMeaning(w: string, text: string)
    requires Literal(w)
    ensures Matches(w, text) <==> exists t: nat :: Occurs(w, text, t)
    ensures Matches("^" + w, text) <==> w <= text
    ensures Matches(w + "$", text) <==> |w| <= |text| && text[|text| - |w|..] == w
    ensures Matches("^" + w + "$", text) <==> text == w
  {
    assert w != "" ==> w[0] != '^' && (w + "$")[0] == w[0];
    assert ("^" + w)[1..] == w && ("^" + w + "$")[1..] == w + "$";
    forall t: nat | t <= |text|
      ensures MatchesFrom(Items(w), text, t) <==> Occurs(w, text, t)
      ensures MatchesFrom(Items(w + "$"), text, t) <==> Occurs(w, text, t) && t + |w| == |text|
    {
      WordOnly(w, text, t);
    }
    assert Occurs(w, text, 0) <==> w <= text;
    if |w| <= |text| {
      var t: nat := |text| - |w|;
      assert text[t..t + |w|] == text[t..];
      assert Occurs(w, text, t) <==> text[t..] == w;
    }
  }

  /** n times the character c. */
  function Times(c: char, n: nat): (s: string) { seq(n, _ => c) }

  /** "." is any one character, between any two words. */
  lemma {:induction false} DotMeaning(u: string, v: string, text: string)
    requires Literal(u) && Literal(v)
    ensures Matches("^" + u + "." + v + "$", text) <==>
              |text| == |u| + 1 + |v| && text[..|u|] == u && text[|u| + 1..] == v
  {
    hide Items, MatchesFrom;
    var re := "." + v + "$";
    assert ("^" + u + "." + v + "$")[1..] == u + re;
    WordThen(u, re, text, 0);
    if |u| <= |text| {
      ReadDot(v);
      FirstItem(One('.'), Items(v + "$"), text, |u|);
      if |u| < |text| {
        WordOnly(v, text, |u| + 1);
        assert PieceOk(One('.'), text, |u|, |u| + 1);
        if |u| + 1 + |v| == |text| {
          assert text[|u| + 1..|u| + 1 + |v|] == text[|u| + 1..];
        }
      }
    }
  }

  /** "c*" is any number of c's, and ".*" anything, between any two words. */
  lemma {:induction false} StarMeaning(u: string, c: char, v: string, text: string)
    requires Literal(u) && Literal(v) && c != '.' && (u == "" || c != '*')
    ensures Matches("^" + u + [c, '*'] + v + "$", text) <==> exists n: nat :: text == u + Times(c, n) + v
    ensures Matches("^" + u + ".*" + v + "$", text) <==> |u| + |v| <= |text| && u <= text && text[|text| - |v|..] == v
  {
    hide Matches, StarAt, Times;
    StarSplit(u, c, v, text);
    StarSplit(u, '.', v, text);
    StarTimes(u, c, v, text);
    StarAny(u, v, text);
    assert [c, '*'] == [c] + "*" && ['.', '*'] == ".*";
  }

  lemma {:induction false} StarTimes(u: string, c: char, v: string, text: string)
    requires c != '.'
    ensures (exists k: nat :: StarAt(u, c, v, text, k)) <==> exists n: nat :: text == u + Times(c, n) + v
  {
    if n: nat :| text == u + Times(c, n) + v {
      assert text[..|u|] == u && text[|u|..|u| + n] == Times(c, n) && text[|u| + n..] == v;
      assert forall l | |u| <= l < |u| + n :: text[l] == text[|u|..|u| + n][l - |u|];
      assert StarAt(u, c, v, text, |u| + n);
    }
    if k: nat :| StarAt(u, c, v, text, k) {
      var n: nat := k - |u|;
      assert text[|u|..k] == Times(c, n) && text == text[..|u|] + text[|u|..k] + text[k..];
      assert text == u + Times(c, n) + v;
    }
  }

  lemma {:induction false} StarAny(u: string, v: string, text: string)
    ensures (exists k: nat :: StarAt(u, '.', v, text, k)) <==>
              |u| + |v| <= |text| && u <= text && text[|text| - |v|..] == v
  {
    if |u| + |v| <= |text| && u <= text && text[|text| - |v|..] == v {
      assert StarAt(u, '.', v, text, |text| - |v|);
    }
  }

  /** text is u, then characters that c allows up to position k, then v. */
  ghost predicate StarAt(u: string, c: char, v: string, text: string, k: nat) {
    && |u| <= k <= |text| && u <= text && text[k..] == v && forall l | |u| <= l < k :: c == '.' || text[l] == c
  }

  lemma {:induction false} StarSplit(u: string, c: char, v: string, text: string)
    requires Literal(u) && Literal(v) && (u == "" || c != '*')
    ensures Matches("^" + u + [c, '*'] + v + "$", text) <==> exists k: nat :: StarAt(u, c, v, text, k)
  {
    hide MatchesFrom, Items;
    var last := v + "$";
    var re := [c, '*'] + last;
    assert ("^" + u + [c, '*'] + v + "$")[1..] == u + re;
    WordThen(u, re, text, 0);
    ReadStar(c, last);
    if |u| <= |text| {
      FirstItem(Star(c), Items(last), text, |u|);
      forall k: nat | |u| <= k <= |text|
        ensures StarAt(u, c, v, text, k) <==>
                  Occurs(u, text, 0) && PieceOk(Star(c), text, |u|, k) && MatchesFrom(Items(last), text, k)
      {
        WordOnly(v, text, k);
        assert k + |v| == |text| ==> text[k..k + |v|] == text[k..];
      }
    }
  }

  lemma {:induction false} ReadDot(v: string)
    requires Literal(v)
    ensures Items("." + v + "$") == [One('.')] + Items(v + "$")
  {
    var re := "." + v + "$";
    assert re[1..] == v + "$" && (v + "$")[0] != '*';
  }

  lemma {:induction false} ReadStar(c: char, re: string)
    ensures Items([c, '*'] + re) == [Star(c)] + Items(re)
  {
    assert ([c, '*'] + re)[2..] == re;
  }
}
