/** The POST-body parser `scan_post` (GENSCAN.py:21-29): `a=b&c=d` becomes a
    key-to-value map. */
module PostBody {
  import opened Wrappers
  import opened Text
  import opened Pieces

  /** One `&`-piece: when it contains `=`, `pair.split("=", 1)` gives the key
      before the first `=` and the value after it (values may hold more `=`). */
  function SplitPair(piece: string): (r: Option<(string, string)>)
    ensures r.Some? <==> '=' in piece
    ensures r.Some? ==> piece == r.value.0 + "=" + r.value.1 && '=' !in r.value.0
  {
    ContainsChar(piece, '=');
    if Contains(piece, "=") then
      var i := Find(piece, "=");
      assert piece[i..i + 1] == "=";
      forall j | 0 <= j < i ensures piece[..i][j] != '=' {
        assert !OccursAt(piece, "=", j);
        assert piece[j..j + 1] == [piece[j]];
      }
      assert piece == piece[..i] + "=" + piece[i + 1..];
      Some((piece[..i], piece[i + 1..]))
    else
      None
  }

  /** The map the loop has built after the given pieces: pieces without `=`
      are skipped and a later key overwrites an earlier one. */
  function Collect(pieces: seq<string>): map<string, string> {
    if |pieces| == 0 then map[]
    else
      var m := Collect(pieces[..|pieces| - 1]);
      match SplitPair(pieces[|pieces| - 1])
      case Some((k, v)) => m[k := v]
      case None => m
  }

  /** What `scan_post` returns: None for an absent or empty string, otherwise
      the map collected from the `&`-pieces. */
  function ParsePost(data: Option<string>): Option<map<string, string>> {
    if data.None? || data.value == [] then None
    else Some(Collect(Split(data.value, "&")))
  }

  /** `scan_post`, building the map in place piece by piece. */
  method ScanPost(data: Option<string>) returns (post: Option<map<string, string>>)
    ensures post == ParsePost(data)
  {
    if data.None? || data.value == [] {
      return None;
    }
    var pieces := Split(data.value, "&");
    var m: map<string, string> := map[];
    for i := 0 to |pieces|
      invariant m == Collect(pieces[..i])
    {
      var pair := pieces[i];
      assert pieces[..i + 1][..i] == pieces[..i];
      if Contains(pair, "=") {
        var eq := Find(pair, "=");
        m := m[pair[..eq] := pair[eq + 1..]];
      }
    }
    assert pieces[..|pieces|] == pieces;
    post := Some(m);
  }

  /** One step of `Collect`: the last piece either adds its entry or changes
      nothing. */
  lemma CollectLast(pieces: seq<string>)
    requires |pieces| > 0
    ensures var m, p := Collect(pieces[..|pieces| - 1]), SplitPair(pieces[|pieces| - 1]);
      Collect(pieces) == if p.Some? then m[p.value.0 := p.value.1] else m
  {
  }

  /** A piece with `=` puts its key into the result. */
  lemma {:induction false} CollectHasKey(pieces: seq<string>, i: nat)
    requires i < |pieces| && SplitPair(pieces[i]).Some?
    ensures SplitPair(pieces[i]).value.0 in Collect(pieces)
    decreases |pieces|
  {
    var n := |pieces| - 1;
    CollectLast(pieces);
    if i < n {
      var init := pieces[..n];
      assert init[i] == pieces[i];
      CollectHasKey(init, i);
    }
  }

  /** A key is in the result exactly when some piece with `=` carries it. */
  lemma CollectKeys(pieces: seq<string>, k: string)
    ensures k in Collect(pieces) <==>
      exists i :: 0 <= i < |pieces| && SplitPair(pieces[i]).Some? && SplitPair(pieces[i]).value.0 == k
  {
    if k in Collect(pieces) {
      CollectEntryFrom(pieces, k);
    }
    forall i | 0 <= i < |pieces| && SplitPair(pieces[i]).Some? && SplitPair(pieces[i]).value.0 == k
      ensures k in Collect(pieces)
    {
      CollectHasKey(pieces, i);
    }
  }

  /** The value of a key is the one from the last piece that carries it. */
  lemma {:induction false} CollectLastWins(pieces: seq<string>, i: nat, k: string, v: string)
    requires i < |pieces| && SplitPair(pieces[i]) == Some((k, v))
    requires forall j :: i < j < |pieces| ==> SplitPair(pieces[j]).None? || SplitPair(pieces[j]).value.0 != k
    ensures k in Collect(pieces) && Collect(pieces)[k] == v
    decreases |pieces|
  {
    var n := |pieces| - 1;
    CollectLast(pieces);
    if i < n {
      var init := pieces[..n];
      assert init[i] == pieces[i];
      assert forall j :: i < j < n ==> init[j] == pieces[j];
      CollectLastWins(init, i, k, v);
    }
  }

  /** Every entry of the result is the key and value of one of the pieces. */
  lemma {:induction false} CollectEntryFrom(pieces: seq<string>, k: string)
    requires k in Collect(pieces)
    ensures exists i :: 0 <= i < |pieces| && SplitPair(pieces[i]) == Some((k, Collect(pieces)[k]))
    decreases |pieces|
  {
    var n := |pieces| - 1;
    var init := pieces[..n];
    var last := SplitPair(pieces[n]);
    CollectLast(pieces);
    if last.Some? && last.value.0 == k {
      assert SplitPair(pieces[n]) == Some((k, Collect(pieces)[k]));
    } else {
      assert Collect(pieces)[k] == Collect(init)[k];
      CollectEntryFrom(init, k);
      var i :| 0 <= i < n && SplitPair(init[i]) == Some((k, Collect(init)[k]));
      assert init[i] == pieces[i];
    }
  }

  /** Keys hold neither `&` nor `=`; values hold no `&` (they may hold `=`). */
  lemma ParsedEntriesClean(data: string, k: string)
    requires data != []
    ensures var m := ParsePost(Some(data)).value;
      k in m ==> '&' !in k && '=' !in k && '&' !in m[k]
  {
    var pieces := Split(data, "&");
    var m := Collect(pieces);
    if k in m {
      SplitPiecesFree(data, '&', []);
      CollectEntryFrom(pieces, k);
      var i :| 0 <= i < |pieces| && SplitPair(pieces[i]) == Some((k, m[k]));
      assert pieces[i] == k + "=" + m[k];
      assert '&' !in pieces[i];
    }
  }

  /** A piece written as `key=value` splits back into that key and value when
      the key has no `=`. */
  lemma SplitPairOf(k: string, v: string)
    requires '=' !in k
    ensures SplitPair(k + "=" + v) == Some((k, v))
  {
    var piece := k + "=" + v;
    var r := SplitPair(piece);
    assert piece[|k|] == '=';
    var k', v' := r.value.0, r.value.1;
    assert piece[|k'|] == '=';
    assert forall j :: 0 <= j < |k| ==> piece[j] == k[j] != '=';
    assert forall j :: 0 <= j < |k'| ==> piece[j] == k'[j] != '=';
    assert |k'| == |k|;
    assert k' == piece[..|k|] == k;
    assert v' == piece[|k| + 1..] == v;
  }

  /** The `key=value` pieces of a list of fields. */
  function FieldPieces(fields: seq<(string, string)>): (r: seq<string>)
    ensures |r| == |fields|
    ensures forall i :: 0 <= i < |fields| ==> r[i] == fields[i].0 + "=" + fields[i].1
  {
    seq(|fields|, i requires 0 <= i < |fields| => fields[i].0 + "=" + fields[i].1)
  }

  /** The pieces of a prefix of the fields are a prefix of the pieces. */
  lemma FieldPiecesPrefix(fields: seq<(string, string)>, n: nat)
    requires n <= |fields|
    ensures FieldPieces(fields[..n]) == FieldPieces(fields)[..n]
  {
  }

  /** The body a client sends for a list of fields: `k1=v1&k2=v2&...`. */
  function EncodeForm(fields: seq<(string, string)>): string {
    Join(FieldPieces(fields), "&")
  }
  /** The form a list of fields denotes: a later field overrides an earlier
      one with the same name. */
  function FormOf(fields: seq<(string, string)>): map<string, string> {
    if |fields| == 0 then map[]
    else FormOf(fields[..|fields| - 1])[fields[|fields| - 1].0 := fields[|fields| - 1].1]
  }

  /** Names free of `=` and `&`, values free of `&`: the fields `scan_post`
      can read back. */
  predicate Encodable(fields: seq<(string, string)>) {
    forall i :: 0 <= i < |fields| ==>
      '=' !in fields[i].0 && '&' !in fields[i].0 && '&' !in fields[i].1
  }

  lemma {:induction false} CollectEncoded(fields: seq<(string, string)>)
    requires Encodable(fields)
    ensures Collect(FieldPieces(fields)) == FormOf(fields)
    decreases |fields|
  {
    if |fields| > 0 {
      var n := |fields| - 1;
      var init := fields[..n];
      assert Encodable(init) by {
        forall i | 0 <= i < n ensures init[i] == fields[i] { }
      }
      CollectEncoded(init);
      FieldPiecesPrefix(fields, n);
      CollectLast(FieldPieces(fields));
      SplitPairOf(fields[n].0, fields[n].1);
    }
  }

  /** Round trip: parsing the encoding of a non-empty field list gives the
      form those fields denote. */
  lemma ParseEncodedForm(fields: seq<(string, string)>)
    requires |fields| >= 1 && Encodable(fields)
    ensures ParsePost(Some(EncodeForm(fields))) == Some(FormOf(fields))
  {
    var pieces := FieldPieces(fields);
    forall i | 0 <= i < |pieces| ensures '&' !in pieces[i] {
      assert pieces[i] == fields[i].0 + "=" + fields[i].1;
    }
    SplitOfJoin(pieces, '&');
    assert |EncodeForm(fields)| >= |pieces[0]| > 0;
    CollectEncoded(fields);
  }
}
