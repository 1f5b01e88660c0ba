/**
 The editing of a schema's SQL text when a column or table is renamed: the tokens that name it are replaced
 in a copy of the text, in place, the right-most remaining one first.
 */
module RenameSql {

  /** A token of the original text, by its offset and length. */
  datatype Token = Token(z: nat, n: nat)

  ghost predicate Within(sql: seq<char>, t: Token) {
    t.n > 0 && t.z + t.n <= |sql|
  }

  /** Tokens of a text do not overlap. */
  ghost predicate Apart(s: Token, t: Token) {
    s.z + s.n <= t.z || t.z + t.n <= s.z
  }

  ghost predicate Disjoint(sql: seq<char>, tokens: seq<Token>) {
    && (forall i :: 0 <= i < |tokens| ==> Within(sql, tokens[i]))
    && (forall i, j :: 0 <= i < j < |tokens| ==> Apart(tokens[i], tokens[j]))
  }

  /** Tokens in the order of the text. */
  ghost predicate InOrder(sql: seq<char>, tokens: seq<Token>) {
    && (forall i :: 0 <= i < |tokens| ==> Within(sql, tokens[i]))
    && (forall i, j :: 0 <= i < j < |tokens| ==> tokens[i].z + tokens[i].n <= tokens[j].z)
  }

  /** A name in double quotes, with the double quotes in it doubled. */
  function Doubled(name: seq<char>): (r: seq<char>)
    ensures |r| >= |name|
  {
    if name == [] then []
    else (if name[0] == '\"' then ['\"', '\"'] else [name[0]]) + Doubled(name[1..])
  }

  function Quoted(name: seq<char>): (r: seq<char>)
    ensures |r| >= |name| + 2
  {
    ['\"'] + Doubled(name) + ['\"']
  }

  /** The text that replaces a token: a token that does not start like an identifier is always quoted. */
  function Replacement(sql: seq<char>, t: Token, name: seq<char>, quote: bool, isId: char -> bool): (r: seq<char>)
    requires t.z < |sql|
    ensures |r| <= |Quoted(name)|
  {
    if isId(sql[t.z]) && !quote then name else Quoted(name)
  }

  /** What reading an identifier in double quotes gives: the identifier and the text after it. */
  datatype Reading = Reading(name: seq<char>, rest: seq<char>) | Unterminated

  /** Reads on after the opening quote: two quotes stand for one, a single one ends the identifier. */
  function ReadOn(s: seq<char>): Reading
    decreases |s|
  {
    if s == [] then Unterminated
    else if s[0] != '\"' then With(s[0], ReadOn(s[1..]))
    else if |s| > 1 && s[1] == '\"' then With('\"', ReadOn(s[2..]))
    else Reading([], s[1..])
  }

  function With(c: char, r: Reading): Reading {
    if r.Reading? then Reading([c] + r.name, r.rest) else r
  }

  lemma ReadPlain(c: char, tail: seq<char>)
    requires c != '\"'
    ensures ReadOn([c] + tail) == With(c, ReadOn(tail))
  {
    assert ([c] + tail)[1..] == tail;
  }

  lemma ReadPair(tail: seq<char>)
    ensures ReadOn(['\"', '\"'] + tail) == With('\"', ReadOn(tail))
  {
    assert (['\"', '\"'] + tail)[2..] == tail;
  }

  lemma ReadEnd(rest: seq<char>)
    requires rest == [] || rest[0] != '\"'
    ensures ReadOn(['\"'] + rest) == Reading([], rest)
  {
    assert (['\"'] + rest)[1..] == rest;
  }

  /** A name with its quotes doubled reads, up to the closing quote, as the name. */
  lemma {:induction false} DoubledReads(name: seq<char>, rest: seq<char>)
    requires rest == [] || rest[0] != '\"'
    ensures ReadOn(Doubled(name) + ['\"'] + rest) == Reading(name, rest)
  {
    var s := Doubled(name) + ['\"'] + rest;
    hide ReadOn;
    if name == [] {
      assert s == ['\"'] + rest;
      ReadEnd(rest);
    } else {
      var tail := Doubled(name[1..]) + ['\"'] + rest;
      DoubledReads(name[1..], rest);
      if name[0] == '\"' {
        assert s == ['\"', '\"'] + tail;
        ReadPair(tail);
      } else {
        assert s == [name[0]] + tail;
        ReadPlain(name[0], tail);
      }
    }
  }

  /**
   The text put in place of a token names the new name: it is the name itself for a token that was a plain
   identifier, unless quotes are asked for, and otherwise an identifier in quotes that reads as the name.
   */
  lemma ReplacementReads(sql: seq<char>, t: Token, name: seq<char>, quote: bool, isId: char -> bool, rest: seq<char>)
    requires t.z < |sql| && (rest == [] || rest[0] != '\"')
    ensures var r := Replacement(sql, t, name, quote, isId);
            if isId(sql[t.z]) && !quote then r == name
            else r != [] && r[0] == '\"' && ReadOn((r + rest)[1..]) == Reading(name, rest)
  {
    DoubledReads(name, rest);
    assert (Quoted(name) + rest)[1..] == Doubled(name) + ['\"'] + rest;
  }

  /** The text from an offset on, with all the given tokens replaced at once. */
  ghost function Edited(sql: seq<char>, order: seq<Token>, from: nat, name: seq<char>, quote: bool,
                        isId: char -> bool): seq<char>
    requires InOrder(sql, order) && from <= |sql| && (order != [] ==> from <= order[0].z)
    decreases |order|
  {
    if order == [] then sql[from..]
    else
      var t := order[0];
      sql[from..t.z] + Replacement(sql, t, name, quote, isId) + Edited(sql, order[1..], t.z + t.n, name, quote, isId)
  }

  /** The text before the first token is left as it is. */
  lemma {:induction false} EditedFrom(sql: seq<char>, order: seq<Token>, from: nat, to: nat, name: seq<char>,
                                      quote: bool, isId: char -> bool)
    requires InOrder(sql, order) && from <= to <= |sql| && (order != [] ==> to <= order[0].z)
    ensures Edited(sql, order, from, name, quote, isId) == sql[from..to] + Edited(sql, order, to, name, quote, isId)
  {
  }

  lemma Spliced(sql: seq<char>, out: seq<char>, z: nat, e: nat, r: seq<char>, tail: seq<char>)
    requires z <= e <= |sql| && out == sql[0..e] + tail
    ensures out[..z] + r + out[e..] == sql[0..z] + r + tail
  {
  }

  /** Replacing one more token, to the left of those already replaced. */
  lemma EditedOneMore(sql: seq<char>, t: Token, order: seq<Token>, out: seq<char>, name: seq<char>, quote: bool,
                      isId: char -> bool)
    requires Within(sql, t) && InOrder(sql, order) && (order != [] ==> t.z + t.n <= order[0].z)
    requires InOrder(sql, [t] + order)
    requires out == Edited(sql, order, 0, name, quote, isId)
    ensures t.z + t.n <= |out|
    ensures Edited(sql, [t] + order, 0, name, quote, isId)
         == out[..t.z] + Replacement(sql, t, name, quote, isId) + out[t.z + t.n..]
  {
    var e := t.z + t.n;
    EditedFrom(sql, order, 0, e, name, quote, isId);
    EditedHead(sql, t, order, name, quote, isId);
    hide InOrder, Replacement, Edited;
    Spliced(sql, out, t.z, e, Replacement(sql, t, name, quote, isId), Edited(sql, order, e, name, quote, isId));
  }

  lemma EditedHead(sql: seq<char>, t: Token, order: seq<Token>, name: seq<char>, quote: bool, isId: char -> bool)
    requires Within(sql, t) && InOrder(sql, order) && (order != [] ==> t.z + t.n <= order[0].z)
    requires InOrder(sql, [t] + order)
    ensures Edited(sql, [t] + order, 0, name, quote, isId)
         == sql[0..t.z] + Replacement(sql, t, name, quote, isId) + Edited(sql, order, t.z + t.n, name, quote, isId)
  {
    hide Replacement, InOrder;
    assert ([t] + order)[1..] == order;
  }

  /** The list of tokens still to be replaced. */
  class RenameCtx {
    var list: seq<Token>

    constructor (tokens: seq<Token>)
      ensures list == tokens
    {
      list := tokens;
    }

    /** Takes the right-most token out of the list. */
    method Next() returns (best: Token)
      requires list != []
      modifies this
      ensures exists k :: 0 <= k < |old(list)| && old(list)[k] == best && list == Without(old(list), k)
      ensures forall i :: 0 <= i < |old(list)| ==> old(list)[i].z <= best.z
    {
      var k := 0;
      for i := 1 to |list|
        invariant k < i && forall j :: 0 <= j < i ==> list[j].z <= list[k].z
      {
        if list[i].z > list[k].z {
          k := i;
        }
      }
      best := list[k];
      list := Without(list, k);
    }
  }

  function Without(tokens: seq<Token>, k: nat): (r: seq<Token>)
    requires k < |tokens|
    ensures |r| == |tokens| - 1 && forall i :: 0 <= i < |r| ==> r[i] == tokens[if i < k then i else i + 1]
    ensures multiset(r) + multiset{tokens[k]} == multiset(tokens)
  {
    assert tokens == tokens[..k] + [tokens[k]] + tokens[k + 1..];
    tokens[..k] + tokens[k + 1..]
  }

  /** All tokens of a list come before those of another. */
  ghost predicate Before(a: seq<Token>, b: seq<Token>) {
    forall i, j :: 0 <= i < |a| && 0 <= j < |b| ==> a[i].z + a[i].n <= b[j].z
  }

  /** The right-most token goes to the front of those already replaced. */
  lemma TakenOut(sql: seq<char>, was: seq<Token>, k: nat, order: seq<Token>)
    requires Disjoint(sql, was) && k < |was| && InOrder(sql, order)
    requires forall i :: 0 <= i < |was| ==> was[i].z <= was[k].z
    requires Before(was, order)
    ensures Disjoint(sql, Without(was, k)) && InOrder(sql, [was[k]] + order)
    ensures Before(Without(was, k), [was[k]] + order)
  {
  }

  /** Replaces n characters at off by text, moving what follows. */
  method Splice(z: array<char>, nOut: nat, off: nat, n: nat, text: seq<char>) returns (nOut': nat)
    requires off + n <= nOut && nOut + 1 <= z.Length && nOut - n + |text| + 1 <= z.Length
    modifies z
    ensures nOut' == nOut - n + |text|
    ensures z[..nOut'] == old(z[..nOut])[..off] + text + old(z[..nOut])[off + n..]
  {
    nOut' := nOut;
    if n != |text| {
      forall i | 0 <= i < nOut - (off + n) {
        z[off + |text| + i] := z[off + n + i];
      }
      nOut' := nOut - n + |text|;
      z[nOut'] := 0 as char;
    }
    forall i | 0 <= i < |text| {
      z[off + i] := text[i];
    }
    assert z[..nOut'] == old(z[..nOut])[..off] + text + old(z[..nOut])[off + n..];
  }

  /** The room kept for the replacements of n tokens. */
  function Room(n: nat, nQuot: nat): nat { n * nQuot }

  lemma RoomStep(n: nat, nQuot: nat)
    requires n > 0
    ensures Room(n, nQuot) == Room(n - 1, nQuot) + nQuot
  {
  }

  /** The state of the editing: what is left comes before what is done, and the text is edited so far. */
  ghost predicate Editing(sql: seq<char>, left: seq<Token>, order: seq<Token>, out: seq<char>, name: seq<char>,
                          quote: bool, isId: char -> bool) {
    && Disjoint(sql, left) && InOrder(sql, order) && Before(left, order)
    && out == Edited(sql, order, 0, name, quote, isId)
  }

  lemma EditingStart(sql: seq<char>, left: seq<Token>, name: seq<char>, quote: bool, isId: char -> bool)
    requires Disjoint(sql, left)
    ensures Editing(sql, left, [], sql, name, quote, isId)
  {
  }

  lemma EditingStep(sql: seq<char>, was: seq<Token>, k: nat, order: seq<Token>, out: seq<char>, name: seq<char>,
                    quote: bool, isId: char -> bool)
    requires Editing(sql, was, order, out, name, quote, isId) && k < |was|
    requires forall i :: 0 <= i < |was| ==> was[i].z <= was[k].z
    ensures var t := was[k];
            && t.z + t.n <= |out| && t.z < |sql|
            && Editing(sql, Without(was, k), [t] + order,
                       out[..t.z] + Replacement(sql, t, name, quote, isId) + out[t.z + t.n..], name, quote, isId)
  {
    assert Within(sql, was[k]);
    TakenOut(sql, was, k, order);
    hide Edited, Replacement, Within, Without;
    EditedOneMore(sql, was[k], order, out, name, quote, isId);
  }

  lemma EditingEnd(sql: seq<char>, order: seq<Token>, out: seq<char>, name: seq<char>, quote: bool, isId: char -> bool)
    requires Editing(sql, [], order, out, name, quote, isId)
    ensures InOrder(sql, order) && out == Edited(sql, order, 0, name, quote, isId)
  {
  }

  /** The buffer, with room for all replacements, holding the text. */
  method NewBuffer(sql: seq<char>, room: nat) returns (z: array<char>)
    ensures fresh(z) && z.Length == |sql| + room + 1 && z[..|sql|] == sql
  {
    z := new char[|sql| + room + 1](_ => 0 as char);
    forall i | 0 <= i < |sql| {
      z[i] := sql[i];
    }
  }

  /** Replaces the right-most remaining token. */
  method EditOne(ctx: RenameCtx, z: array<char>, nOut: nat, sql: seq<char>, name: seq<char>, quote: bool,
                 isId: char -> bool, ghost order: seq<Token>)
    returns (nOut': nat, ghost order': seq<Token>)
    requires ctx.list != [] && nOut + Room(|ctx.list|, |Quoted(name)|) < z.Length
    requires Editing(sql, ctx.list, order, z[..nOut], name, quote, isId)
    modifies ctx, z
    ensures |ctx.list| == |old(ctx.list)| - 1
    ensures multiset(ctx.list) + multiset(order') == multiset(old(ctx.list)) + multiset(order)
    ensures nOut' + Room(|ctx.list|, |Quoted(name)|) < z.Length
    ensures Editing(sql, ctx.list, order', z[..nOut'], name, quote, isId)
  {
    hide *;
    ghost var was, before := ctx.list, z[..nOut];
    RoomStep(|was|, |Quoted(name)|);
    var best := ctx.Next();
    ghost var k :| 0 <= k < |was| && was[k] == best && ctx.list == Without(was, k);
    EditingStep(sql, was, k, order, before, name, quote, isId);
    order' := [best] + order;
    nOut' := Splice(z, nOut, best.z, best.n, Replacement(sql, best, name, quote, isId));
  }

  /** The edited text is the text with all tokens replaced at once; the buffer has room for every step. */
  method EditSql(ctx: RenameCtx, sql: seq<char>, name: seq<char>, quote: bool, isId: char -> bool)
    returns (z: array<char>, nOut: nat, ghost order: seq<Token>)
    requires Disjoint(sql, ctx.list)
    modifies ctx
    ensures fresh(z) && z.Length == |sql| + Room(|old(ctx.list)|, |Quoted(name)|) + 1 && nOut < z.Length
    ensures multiset(order) == multiset(old(ctx.list)) && InOrder(sql, order)
    ensures z[..nOut] == Edited(sql, order, 0, name, quote, isId)
  {
    hide *;
    z := NewBuffer(sql, Room(|ctx.list|, |Quoted(name)|));
    nOut, order := |sql|, [];
    EditingStart(sql, ctx.list, name, quote, isId);
    while ctx.list != []
      invariant fresh(z) && nOut + Room(|ctx.list|, |Quoted(name)|) < z.Length
      invariant Editing(sql, ctx.list, order, z[..nOut], name, quote, isId)
      invariant multiset(ctx.list) + multiset(order) == multiset(old(ctx.list))
      decreases |ctx.list|
    {
      nOut, order := EditOne(ctx, z, nOut, sql, name, quote, isId, order);
    }
    EditingEnd(sql, order, z[..nOut], name, quote, isId);
  }

  lemma FirstIsFirst(sql: seq<char>, a: seq<Token>, b: seq<Token>)
    requires InOrder(sql, a) && InOrder(sql, b) && multiset(a) == multiset(b) && a != [] && b != []
    ensures a[0] == b[0]
  {
    assert a[0] in multiset(b) && b[0] in multiset(a);
    var j :| 0 <= j < |b| && b[j] == a[0];
    var i :| 0 <= i < |a| && a[i] == b[0];
    assert Within(sql, a[0]) && Within(sql, b[0]);
  }

  /** Tokens have one order only, so the result does not depend on the order they are listed in. */
  lemma {:induction false} OrderUnique(sql: seq<char>, a: seq<Token>, b: seq<Token>)
    requires InOrder(sql, a) && InOrder(sql, b) && multiset(a) == multiset(b)
    ensures a == b
  {
    hide *;
    SameLength(a, b);
    if a != [] {
      FirstIsFirst(sql, a, b);
      TailInOrder(sql, a);
      TailInOrder(sql, b);
      OrderUnique(sql, a[1..], b[1..]);
      SameParts(a, b);
    }
  }

  lemma SameLength(a: seq<Token>, b: seq<Token>)
    requires multiset(a) == multiset(b)
    ensures |a| == |b|
  {
    assert |multiset(a)| == |a| && |multiset(b)| == |b|;
  }

  lemma SameParts(a: seq<Token>, b: seq<Token>)
    requires a != [] && b != [] && a[0] == b[0] && a[1..] == b[1..]
    ensures a == b
  {
    assert a == [a[0]] + a[1..] && b == [b[0]] + b[1..];
  }

  lemma TailInOrder(sql: seq<char>, a: seq<Token>)
    requires InOrder(sql, a) && a != []
    ensures InOrder(sql, a[1..]) && multiset(a[1..]) == multiset(a) - multiset{a[0]}
  {
    assert a == [a[0]] + a[1..];
  }
}
