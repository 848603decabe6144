/** Parameter-name extraction: from a function's declaration text, the names
    in its first parenthesised list, split on commas and trimmed. Everything
    after the closing parenthesis (the body, and any nested function in it)
    is ignored. */
module Params {
  import opened Wrappers

  /** White space as JavaScript's `trim` strips it: the WhiteSpace and
      LineTerminator characters of ECMAScript, the Unicode space separators
      (category Zs) included. */
  predicate IsSpace(c: char) {
    c == '\t' || c == '\n' || c == '\U{000B}' || c == '\U{000C}' || c == '\r' || c == ' ' ||
    c == '\U{00A0}' || c == '\U{1680}' || '\U{2000}' <= c <= '\U{200A}' || c == '\U{2028}' ||
    c == '\U{2029}' || c == '\U{202F}' || c == '\U{205F}' || c == '\U{3000}' || c == '\U{FEFF}'
  }

  /** Index of the first `c` in `s`, or `|s|` when there is none. */
  function IndexOf(s: string, c: char): (i: nat)
    ensures i <= |s|
    ensures i < |s| ==> s[i] == c
    ensures forall j :: 0 <= j < i ==> s[j] != c
    ensures i == |s| <==> c !in s
  {
    if s == [] then 0
    else if s[0] == c then 0
    else 1 + IndexOf(s[1..], c)
  }

  /** `s` without its leading white space. */
  function TrimStart(s: string): (r: string)
    ensures |r| <= |s| && r == s[|s| - |r|..]
    ensures forall i :: 0 <= i < |s| - |r| ==> IsSpace(s[i])
    ensures r == [] || !IsSpace(r[0])
  {
    if s != [] && IsSpace(s[0]) then
      var r := TrimStart(s[1..]);
      assert s[1..][|s| - 1 - |r|..] == s[|s| - |r|..];
      assert forall i :: 1 <= i < |s| - |r| ==> s[i] == s[1..][i - 1];
      r
    else s
  }

  /** `s` without its trailing white space. */
  function TrimEnd(s: string): (r: string)
    ensures |r| <= |s| && r == s[..|r|]
    ensures forall i :: |r| <= i < |s| ==> IsSpace(s[i])
    ensures r == [] || !IsSpace(r[|r| - 1])
  {
    if s != [] && IsSpace(s[|s| - 1]) then TrimEnd(s[..|s| - 1]) else s
  }

  function Trim(s: string): (r: string)
    ensures r == [] || (!IsSpace(r[0]) && !IsSpace(r[|r| - 1]))
    ensures forall c :: c in r ==> c in s
  {
    TrimEnd(TrimStart(s))
  }

  /** Text made of white space only. */
  predicate Blank(s: string) {
    forall k :: 0 <= k < |s| ==> IsSpace(s[k])
  }

  /** `Trim` keeps exactly the slice of `s` between its leading and its
      trailing white space, and keeps nothing only of a blank text. */
  lemma TrimSlice(s: string)
    ensures exists i, j :: 0 <= i <= j <= |s| && Trim(s) == s[i..j] && Blank(s[..i]) && Blank(s[j..])
    ensures Trim(s) == [] <==> Blank(s)
  {
    var t := TrimStart(s);
    var r := TrimEnd(t);
    var i := |s| - |t|;
    LeadingBlank(s);
    TrailingBlank(t);
    SliceGlue(s, t, r, i);
    assert 0 <= i <= i + |r| <= |s| && r == s[i..i + |r|];
  }

  lemma LeadingBlank(s: string)
    ensures Blank(s[..|s| - |TrimStart(s)|])
  {
    var n := |s| - |TrimStart(s)|;
    assert forall k :: 0 <= k < n ==> s[..n][k] == s[k];
  }

  lemma TrailingBlank(t: string)
    ensures Blank(t[|TrimEnd(t)|..])
  {
    var n := |TrimEnd(t)|;
    assert forall k :: n <= k < |t| ==> t[n..][k - n] == t[k];
  }

  lemma SliceGlue(s: string, t: string, r: string, i: nat)
    requires i <= |s| && t == s[i..] && Blank(s[..i])
    requires |r| <= |t| && r == t[..|r|] && Blank(t[|r|..])
    requires r == [] || !IsSpace(r[0])
    ensures r == s[i..i + |r|] && Blank(s[i + |r|..])
    ensures r == [] <==> Blank(s)
  {
    assert s[i + |r|..] == t[|r|..];
    assert s == s[..i] + t;
    if r == [] {
      assert t[0..] == t;
      BlankConcat(s[..i], t);
    } else {
      assert s[i] == r[0];
    }
  }

  lemma BlankConcat(a: string, b: string)
    requires Blank(a) && Blank(b)
    ensures Blank(a + b)
  {
    assert forall k :: |a| <= k < |a + b| ==> (a + b)[k] == b[k - |a|];
  }

  /** The pieces of `s` between commas, in order. */
  function Split(s: string): (parts: seq<string>)
    ensures |parts| >= 1
    ensures forall k :: 0 <= k < |parts| ==> ',' !in parts[k]
    decreases |s|
  {
    var i := IndexOf(s, ',');
    if i == |s| then [s] else [s[..i]] + Split(s[i + 1..])
  }

  /** The pieces of `parts` joined with `sep` between neighbours. */
  function Join(parts: seq<string>, sep: string): string
  {
    if parts == [] then ""
    else if |parts| == 1 then parts[0]
    else parts[0] + sep + Join(parts[1..], sep)
  }

  /** The trimmed pieces, leaving out those that are blank. */
  function Clean(parts: seq<string>): (names: seq<string>)
    ensures |names| <= |parts|
    ensures forall k :: 0 <= k < |names| ==> names[k] != [] && !IsSpace(names[k][0]) && !IsSpace(names[k][|names[k]| - 1])
  {
    if parts == [] then []
    else
      var t := Trim(parts[0]);
      (if t == [] then [] else [t]) + Clean(parts[1..])
  }

  /** The names of a comma-separated parameter list. */
  function Names(list: string): (names: seq<string>)
    ensures forall k :: 0 <= k < |names| ==> names[k] != [] && ',' !in names[k]
  {
    var parts := Split(list);
    var names := Clean(parts);
    assert forall k :: 0 <= k < |names| ==> ',' !in names[k] by {
      CleanKeepsOut(parts, ',');
    }
    names
  }

  /** The parameter names declared by the text of a function: those of its
      first parenthesised list. `None` when the text has no `(` or no `)`
      after it: a non-function, or an arrow function with a bare parameter. */
  function ParamNames(source: string): (r: Option<seq<string>>)
    ensures r.None? <==> '(' !in source || ')' !in source[IndexOf(source, '(') + 1..]
    ensures r.Some? ==> forall k :: 0 <= k < |r.value| ==> r.value[k] != [] && ',' !in r.value[k] && ')' !in r.value[k]
  {
    var open := IndexOf(source, '(');
    if open == |source| then None
    else
      var rest := source[open + 1..];
      var close := IndexOf(rest, ')');
      if close == |rest| then None
      else
        var names := Names(rest[..close]);
        assert forall k :: 0 <= k < |names| ==> ')' !in names[k] by {
          NamesKeepOut(rest[..close], ')');
        }
        Some(names)
  }

  // ---------------------------------------------------------------------
  // Lemmas

  lemma {:induction false} CleanKeepsOut(parts: seq<string>, c: char)
    requires forall k :: 0 <= k < |parts| ==> c !in parts[k]
    ensures forall k :: 0 <= k < |Clean(parts)| ==> c !in Clean(parts)[k]
  {
    if parts != [] {
      CleanKeepsOut(parts[1..], c);
    }
  }

  lemma {:induction false} SplitKeepsOut(s: string, c: char)
    requires c !in s
    ensures forall k :: 0 <= k < |Split(s)| ==> c !in Split(s)[k]
    decreases |s|
  {
    var i := IndexOf(s, ',');
    if i < |s| {
      SplitKeepsOut(s[i + 1..], c);
      assert c !in s[..i];
    }
  }

  /** A character absent from the list text is absent from every name. */
  lemma NamesKeepOut(list: string, c: char)
    requires c !in list
    ensures forall k :: 0 <= k < |Names(list)| ==> c !in Names(list)[k]
  {
    SplitKeepsOut(list, c);
    CleanKeepsOut(Split(list), c);
  }

  /** Splitting and joining with a comma are inverse. */
  lemma {:induction false} JoinSplit(s: string)
    ensures Join(Split(s), ",") == s
    decreases |s|
  {
    var i := IndexOf(s, ',');
    if i < |s| {
      var a, b := s[..i], s[i + 1..];
      SplitAt(s);
      JoinCons(a, Split(b), ",");
      JoinSplit(b);
      CommaAt(s, i);
      Rejoin(s, Split(s), a, Split(b), b);
    }
  }

  /** `Split` unfolded at the first comma. */
  lemma SplitAt(s: string)
    requires ',' in s
    ensures Split(s) == [s[..IndexOf(s, ',')]] + Split(s[IndexOf(s, ',') + 1..])
  {
  }

  /** Cuts `s` at a comma; a step of `JoinSplit`, split out to keep that
      proof small. */
  lemma CommaAt(s: string, i: nat)
    requires i < |s| && s[i] == ','
    ensures s == s[..i] + "," + s[i + 1..]
  {
  }

  /** Reassembles `Join` over a cons; a step of `JoinSplit`, split out to
      keep that proof small. */
  lemma Rejoin(s: string, parts: seq<string>, a: string, more: seq<string>, b: string)
    requires parts == [a] + more && more != []
    requires Join([a] + more, ",") == a + "," + Join(more, ",")
    requires Join(more, ",") == b && s == a + "," + b
    ensures Join(parts, ",") == s
  {
  }

  lemma JoinCons(a: string, tail: seq<string>, sep: string)
    requires tail != []
    ensures Join([a] + tail, sep) == a + sep + Join(tail, sep)
  {
    assert ([a] + tail)[1..] == tail;
  }

  lemma {:induction false} SplitAfterPiece(a: string, b: string)
    requires ',' !in a
    ensures Split(a + "," + b) == [a] + Split(b)
  {
    var s := a + "," + b;
    var i := IndexOf(s, ',');
    assert s[|a|] == ',';
    assert forall j :: 0 <= j < |a| ==> s[j] == a[j];
    assert i == |a|;
    assert s[..i] == a;
    assert s[i + 1..] == b;
  }

  lemma {:induction false} TrimStartOfBlankPrefix(p: string, n: string)
    requires forall i :: 0 <= i < |p| ==> IsSpace(p[i])
    requires n != [] && !IsSpace(n[0])
    ensures TrimStart(p + n) == n
  {
    if p != [] {
      assert (p + n)[1..] == p[1..] + n;
      TrimStartOfBlankPrefix(p[1..], n);
    } else {
      assert p + n == n;
    }
  }

  /** A well-formed parameter name: a non-empty run of characters that are
      neither white space, nor commas, nor parentheses. */
  predicate IsName(n: string) {
    n != [] && forall i :: 0 <= i < |n| ==> NameChar(n[i])
  }

  predicate NameChar(c: char) {
    !IsSpace(c) && c != ',' && c != '(' && c != ')'
  }

  /** Rendering well-formed names as `a, b, c` and reading them back gives
      the same names, whatever blank prefix precedes the list. */
  lemma {:induction false} NamesOfRendered(p: string, names: seq<string>)
    requires forall i :: 0 <= i < |p| ==> IsSpace(p[i])
    requires forall k :: 0 <= k < |names| ==> IsName(names[k])
    ensures Names(p + Join(names, ", ")) == names
    decreases |names|
  {
    if names == [] {
      assert p + Join(names, ", ") == p;
      CleanPadded(p, []);
    } else if |names| == 1 {
      assert p + Join(names, ", ") == p + names[0];
      CleanPadded(p, names[0]);
    } else {
      var n, tail := names[0], names[1..];
      assert names == [n] + tail;
      var rest := Join(tail, ", ");
      JoinCons(n, tail, ", ");
      Regroup(p, n, rest);
      CleanPadded(p, n);
      NamesOfRendered(" ", tail);
      NamesCons(p + n, " " + rest, n, tail);
    }
  }

  /** Regroups the rendered list around its first comma; a step of
      `NamesOfRendered`, split out to keep that proof small. */
  lemma Regroup(p: string, n: string, rest: string)
    ensures p + (n + ", " + rest) == (p + n) + "," + (" " + rest)
  {
  }

  /** A piece without commas that reads as `n`, then a comma, then a list
      that reads as `names`, reads as `n` followed by `names`. */
  lemma NamesCons(head: string, rest: string, n: string, names: seq<string>)
    requires ',' !in head && Clean([head]) == [n]
    requires Names(rest) == names
    ensures Names(head + "," + rest) == [n] + names
  {
    SplitAfterPiece(head, rest);
    CleanCons(head, Split(rest));
  }

  /** A blank prefix followed by one name (or nothing) reads as that name
      (or as no name). */
  lemma CleanPadded(p: string, n: string)
    requires forall i :: 0 <= i < |p| ==> IsSpace(p[i])
    requires n == [] || IsName(n)
    ensures ',' !in p + n
    ensures Split(p + n) == [p + n]
    ensures Clean([p + n]) == if n == [] then [] else [n]
  {
    assert forall i :: 0 <= i < |p + n| ==> (p + n)[i] != ',' by {
      forall i | 0 <= i < |p + n| ensures (p + n)[i] != ',' {
        if i >= |p| { assert (p + n)[i] == n[i - |p|]; }
      }
    }
    assert [p + n][1..] == [];
    if n == [] {
      assert p + n == p;
    } else {
      TrimStartOfBlankPrefix(p, n);
    }
  }

  lemma CleanCons(a: string, parts: seq<string>)
    ensures Clean([a] + parts) == Clean([a]) + Clean(parts)
  {
    assert ([a] + parts)[1..] == parts;
    assert [a][1..] == [];
  }

  /** A single piece is kept, trimmed, exactly when it is not blank. */
  lemma CleanOne(a: string)
    ensures Clean([a]) == if Blank(a) then [] else [Trim(a)]
  {
    TrimSlice(a);
    assert [a][1..] == [];
  }

  /** Cleaning works piece by piece: the pieces of `a + b` are those of `a`
      followed by those of `b`. With `CleanOne` this fixes `Clean` as the
      trimmed non-blank pieces, in order. */
  lemma {:induction false} CleanAppend(a: seq<string>, b: seq<string>)
    ensures Clean(a + b) == Clean(a) + Clean(b)
  {
    if a == [] {
      assert a + b == b;
    } else {
      assert (a + b)[0] == a[0] && (a + b)[1..] == a[1..] + b;
      CleanAppend(a[1..], b);
    }
  }

  /** A text without commas splits into itself. */
  lemma SplitWhole(s: string)
    requires ',' !in s
    ensures Split(s) == [s]
  {
  }

  lemma {:induction false} TrimEndOfBlankSuffix(n: string, q: string)
    requires n != [] && !IsSpace(n[|n| - 1])
    requires Blank(q)
    ensures TrimEnd(n + q) == n
    decreases |q|
  {
    if q == [] {
      assert n + q == n;
    } else {
      var q' := q[..|q| - 1];
      assert (n + q)[..|n + q| - 1] == n + q';
      assert (n + q)[|n + q| - 1] == q[|q| - 1];
      TrimEndOfBlankSuffix(n, q');
    }
  }

  /** A name with white space around it reads as the name. */
  lemma PieceName(p: string, n: string, q: string)
    requires Blank(p) && IsName(n) && Blank(q)
    ensures ',' !in p + n + q
    ensures Clean([p + n + q]) == [n]
  {
    var x := p + n + q;
    forall k | 0 <= k < |x| ensures x[k] != ',' {
      if k < |p| {
        assert x[k] == p[k];
      } else if k < |p| + |n| {
        assert x[k] == n[k - |p|];
      } else {
        assert x[k] == q[k - |p| - |n|];
      }
    }
    assert x == p + (n + q);
    TrimStartOfBlankPrefix(p, n + q);
    TrimEndOfBlankSuffix(n, q);
    assert [x][1..] == [];
  }

  /** The pieces `pre[k] + ns[k] + post[k]`, in order. */
  function Padded(pre: seq<string>, ns: seq<string>, post: seq<string>): (r: seq<string>)
    requires |pre| == |ns| == |post|
    ensures |r| == |ns|
    ensures forall k :: 0 <= k < |r| ==> r[k] == pre[k] + ns[k] + post[k]
  {
    if ns == [] then []
    else
      var rest := Padded(pre[1..], ns[1..], post[1..]);
      assert forall k :: 1 <= k < |ns| ==> pre[k] == pre[1..][k - 1] && ns[k] == ns[1..][k - 1] && post[k] == post[1..][k - 1];
      [pre[0] + ns[0] + post[0]] + rest
  }

  /** Any layout of a parameter list reads back its names: each name may
      carry any white space before and after it (spaces, tabs, line
      breaks), as `(a,b)`, `(a ,b)` or `(a,\n b)` do. */
  lemma {:induction false} NamesOfPadded(pre: seq<string>, ns: seq<string>, post: seq<string>)
    requires |pre| == |ns| == |post|
    requires forall k :: 0 <= k < |ns| ==> Blank(pre[k]) && IsName(ns[k]) && Blank(post[k])
    ensures Names(Join(Padded(pre, ns, post), ",")) == ns
    decreases |ns|
  {
    var pieces := Padded(pre, ns, post);
    if ns == [] {
      assert Join(pieces, ",") == "";
      SplitWhole("");
      CleanOne("");
    } else {
      var piece := pre[0] + ns[0] + post[0];
      PieceName(pre[0], ns[0], post[0]);
      if |ns| == 1 {
        assert Join(pieces, ",") == piece;
        SplitWhole(piece);
      } else {
        var rest := Padded(pre[1..], ns[1..], post[1..]);
        assert pieces == [piece] + rest;
        JoinCons(piece, rest, ",");
        NamesOfPadded(pre[1..], ns[1..], post[1..]);
        NamesCons(piece, Join(rest, ","), ns[0], ns[1..]);
        assert [ns[0]] + ns[1..] == ns;
      }
    }
  }

  lemma {:induction false} IndexOfAfterPrefix(a: string, c: char, b: string)
    requires c !in a
    ensures IndexOf(a + [c] + b, c) == |a|
    decreases |a|
  {
    if a != [] {
      assert (a + [c] + b)[1..] == a[1..] + [c] + b;
      IndexOfAfterPrefix(a[1..], c, b);
    }
  }

  /** Only the first parenthesised list counts: whatever follows its closing
      parenthesis, nested functions included, does not change the names. */
  lemma SignatureOnly(head: string, list: string, body: string)
    requires '(' !in head && ')' !in list
    ensures ParamNames(head + "(" + list + ")" + body) == Some(Names(list))
  {
    var source := head + "(" + list + ")" + body;
    IndexOfAfterPrefix(head, '(', list + ")" + body);
    assert source == head + ['('] + (list + ")" + body);
    var rest := source[|head| + 1..];
    assert rest == list + [')'] + body;
    IndexOfAfterPrefix(list, ')', body);
    assert rest[..|list|] == list;
  }

  /** The text `head(a, b, c)body` of a function declaring `names`. */
  function Declaration(head: string, names: seq<string>, body: string): string {
    head + "(" + Join(names, ", ") + ")" + body
  }

  /** A declaration `head(a, b, c) body` yields exactly `[a, b, c]`. */
  lemma DeclarationNames(head: string, names: seq<string>, body: string)
    requires '(' !in head
    requires forall k :: 0 <= k < |names| ==> IsName(names[k])
    ensures ParamNames(Declaration(head, names, body)) == Some(names)
  {
    var list := Join(names, ", ");
    JoinKeepsOut(names, ')');
    SignatureOnly(head, list, body);
    NamesOfRendered("", names);
    assert "" + list == list;
  }

  lemma {:induction false} JoinKeepsOut(names: seq<string>, c: char)
    requires c != ',' && c != ' '
    requires forall k :: 0 <= k < |names| ==> c !in names[k]
    ensures c !in Join(names, ", ")
    decreases |names|
  {
    if |names| > 1 {
      JoinKeepsOut(names[1..], c);
    }
  }

  /** An empty parameter list, or one holding only white space, declares no
      names. */
  lemma NoParameters(head: string, blank: string, body: string)
    requires '(' !in head
    requires forall i :: 0 <= i < |blank| ==> IsSpace(blank[i])
    ensures ParamNames(head + "(" + blank + ")" + body) == Some([])
  {
    assert ')' !in blank by {
      assert forall i :: 0 <= i < |blank| ==> blank[i] != ')';
    }
    SignatureOnly(head, blank, body);
    NamesOfRendered(blank, []);
    assert blank + Join([], ", ") == blank;
  }
}
