/** Query-string parameters as `URLSearchParams` reads them, without its
    percent-decoding and `+` handling: the string is cut at every `&`, empty
    pieces are dropped, and each piece is split at its first `=`. */
module Query {
  import opened Wrappers
  import opened Strings

  /** One name/value pair. A piece without `=` has the empty value. */
  datatype Param = Param(name: string, value: string)

  function ParsePiece(piece: string): (p: Param)
    ensures '=' !in p.name
    ensures '=' in piece ==> p.name + "=" + p.value == piece
    ensures '=' !in piece ==> p == Param(piece, "")
  {
    var i := IndexOf(piece, '=');
    if i == -1 then Param(piece, "")
    else
      assert piece == piece[..i] + "=" + piece[i + 1..];
      Param(piece[..i], piece[i + 1..])
  }

  function ParsePieces(pieces: seq<string>): (ps: seq<Param>)
    ensures |ps| <= |pieces|
    decreases |pieces|
  {
    if |pieces| == 0 then [] else PieceParams(pieces[0]) + ParsePieces(pieces[1..])
  }

  /** The pair of one piece; an empty piece gives none. */
  function PieceParams(piece: string): (ps: seq<Param>)
    ensures |ps| <= 1
  {
    if piece == "" then [] else [ParsePiece(piece)]
  }

  /** The pairs of an `&`-separated query string. */
  function ParseForm(s: string): seq<Param> {
    ParsePieces(Split(s, '&'))
  }

  /** `new URLSearchParams(init)` for a string `init`: a single leading `?`
      is dropped first. */
  function SearchParams(init: string): seq<Param> {
    ParseForm(if StartsWith(init, "?") then init[1..] else init)
  }

  /** `params.get(name)`: the value of the first pair with that name, or
      `null` (here `None`) when there is none. */
  function Get(ps: seq<Param>, name: string): (r: Option<string>)
    ensures r.None? <==> forall k :: 0 <= k < |ps| ==> ps[k].name != name
    decreases |ps|
  {
    if |ps| == 0 then None
    else if ps[0].name == name then Some(ps[0].value)
    else
      var r := Get(ps[1..], name);
      assert forall k :: 1 <= k < |ps| ==> ps[k] == ps[1..][k - 1];
      r
  }

  /** A value found is that of the first pair with the name. */
  lemma {:induction false} GetFirst(ps: seq<Param>, name: string)
    requires Get(ps, name).Some?
    ensures exists k :: 0 <= k < |ps| && ps[k] == Param(name, Get(ps, name).value)
                        && forall j :: 0 <= j < k ==> ps[j].name != name
    decreases |ps|
  {
    if ps[0].name != name {
      GetFirst(ps[1..], name);
      var k :| 0 <= k < |ps[1..]| && ps[1..][k] == Param(name, Get(ps, name).value)
               && forall j :: 0 <= j < k ==> ps[1..][j].name != name;
      assert ps[k + 1] == ps[1..][k];
      forall j | 0 <= j < k + 1 ensures ps[j].name != name {
        if j > 0 { assert ps[j] == ps[1..][j - 1]; }
      }
    }
  }

  // ---- Lemmas ----

  lemma {:induction false} ParsePiecesAppend(a: seq<string>, b: seq<string>)
    ensures ParsePieces(a + b) == ParsePieces(a) + ParsePieces(b)
    decreases |a|
  {
    if |a| == 0 {
      assert a + b == b;
    } else {
      assert (a + b)[0] == a[0];
      assert (a + b)[1..] == a[1..] + b;
      ParsePiecesAppend(a[1..], b);
      assert PieceParams(a[0]) + (ParsePieces(a[1..]) + ParsePieces(b))
          == (PieceParams(a[0]) + ParsePieces(a[1..])) + ParsePieces(b);
    }
  }

  /** Appending `&x` to a query appends the pairs of `x`. */
  lemma ParseFormAppend(q: string, x: string)
    ensures ParseForm(q + "&" + x) == ParseForm(q) + ParseForm(x)
  {
    assert q + "&" + x == q + ['&'] + x;
    SplitConcat(q, '&', x);
    ParsePiecesAppend(Split(q, '&'), Split(x, '&'));
  }

  lemma SearchParamsAppend(q: string, x: string)
    ensures SearchParams(q + "&" + x) == SearchParams(q) + ParseForm(x)
  {
    if StartsWith(q, "?") {
      assert (q + "&" + x)[..1] == q[..1];
      assert (q + "&" + x)[1..] == q[1..] + "&" + x;
      ParseFormAppend(q[1..], x);
    } else {
      if |q| == 0 {
        assert (q + "&" + x)[..1] == "&";
      } else {
        assert (q + "&" + x)[..1] == q[..1];
      }
      ParseFormAppend(q, x);
    }
  }

  /** A single `name=value` piece whose value has no `&` parses to that pair. */
  lemma ParseFormSingle(name: string, value: string)
    requires name != "" && '=' !in name && '&' !in name && '&' !in value
    ensures ParseForm(name + "=" + value) == [Param(name, value)]
  {
    var s := name + "=" + value;
    assert '&' !in s by {
      forall k | 0 <= k < |s| ensures s[k] != '&' {
        if k < |name| { assert s[k] == name[k]; }
        else if k > |name| { assert s[k] == value[k - |name| - 1]; }
      }
    }
    SplitNoSep(s, '&');
    assert s[..|name|] == name;
    IndexOfUnique(s, '=', |name|);
    assert s[|name| + 1..] == value;
  }

  /** The same for `new URLSearchParams` of such a piece. */
  lemma SearchParamsSingle(name: string, value: string)
    requires name != "" && name[0] != '?' && '=' !in name && '&' !in name && '&' !in value
    ensures SearchParams(name + "=" + value) == [Param(name, value)]
  {
    ParseFormSingle(name, value);
    assert (name + "=" + value)[..1] != "?" by {
      assert (name + "=" + value)[0] == name[0];
    }
  }

  lemma {:induction false} GetAppend(a: seq<Param>, b: seq<Param>, name: string)
    ensures Get(a + b, name) == if Get(a, name).Some? then Get(a, name) else Get(b, name)
    decreases |a|
  {
    if |a| == 0 {
      assert a + b == b;
    } else {
      assert (a + b)[0] == a[0];
      if a[0].name != name {
        assert (a + b)[1..] == a[1..] + b;
        GetAppend(a[1..], b, name);
      }
    }
  }
}
