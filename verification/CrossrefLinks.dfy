/** Which entries the link fields of an entry name, and in which order. */
module CrossrefLinks {
  import opened Wrappers
  import opened Text
  import opened TextTheorems
  import opened Crossref

  // ---------------------------------------------------------------------------
  // The keys of one field

  /** A key as it is written, with white space around it; without a key, an empty piece. */
  datatype Written = Written(before: string, key: string, after: string)
  {
    function Spelling(): string {
      before + key + after
    }

    predicate Neat() {
      IsWhite(before) && IsWhite(after) && IsTrimmed(key) && ',' !in key
    }
  }

  function Spellings(pieces: seq<Written>): (spelled: seq<string>)
    ensures |spelled| == |pieces| && forall i :: 0 <= i < |pieces| ==> spelled[i] == pieces[i].Spelling()
  {
    seq(|pieces|, i requires 0 <= i < |pieces| => pieces[i].Spelling())
  }

  /** The keys that are written, without the empty pieces. */
  function KeysOf(pieces: seq<Written>): seq<string> {
    if pieces == [] then []
    else (if pieces[0].key == [] then [] else [pieces[0].key]) + KeysOf(pieces[1..])
  }

  /** A value that spells keys with commas between them. */
  ghost predicate Lists(value: string, pieces: seq<Written>) {
    && pieces != [] && (forall i :: 0 <= i < |pieces| ==> pieces[i].Neat())
    && value == JoinWith(Spellings(pieces), ",")
  }

  lemma {:induction false} NeatPiece(piece: Written)
    requires piece.Neat()
    ensures Trim(piece.Spelling()) == piece.key && ',' !in piece.Spelling()
  {
    TrimDrops(piece.before, piece.key, piece.after);
    assert !IsWhitespace(',');
    assert ',' !in piece.before && ',' !in piece.after;
  }

  lemma {:induction false} TrimmedSpellings(pieces: seq<Written>)
    requires forall i :: 0 <= i < |pieces| ==> pieces[i].Neat()
    ensures NonEmptyTrimmed(Spellings(pieces)) == KeysOf(pieces)
  {
    if pieces != [] {
      NeatPiece(pieces[0]);
      TrimmedSpellings(pieces[1..]);
      assert Spellings(pieces)[1..] == Spellings(pieces[1..]);
    }
  }

  /** An `xdata` value names the keys written in it, in order. */
  lemma {:induction false} XdataNames(value: string, pieces: seq<Written>)
    requires Lists(value, pieces)
    ensures TargetKeys("xdata", value) == KeysOf(pieces)
  {
    forall i | 0 <= i < |pieces| ensures ',' !in Spellings(pieces)[i] {
      NeatPiece(pieces[i]);
    }
    SplitJoined(Spellings(pieces), ',');
    TrimmedSpellings(pieces);
  }

  lemma {:induction false} PieceIsWritten(piece: string) returns (written: Written)
    requires ',' !in piece
    ensures written.Neat() && written.Spelling() == piece
  {
    var before, after := TrimCuts(piece);
    written := Written(before, Trim(piece), after);
    assert forall i :: 0 <= i < |written.key| ==> written.key[i] == piece[|before| + i];
  }

  lemma {:induction false} PiecesAreWritten(spelled: seq<string>) returns (pieces: seq<Written>)
    requires forall i :: 0 <= i < |spelled| ==> ',' !in spelled[i]
    ensures Spellings(pieces) == spelled && forall i :: 0 <= i < |pieces| ==> pieces[i].Neat()
  {
    pieces := [];
    if spelled != [] {
      var first := PieceIsWritten(spelled[0]);
      var rest := PiecesAreWritten(spelled[1..]);
      pieces := [first] + rest;
      assert Spellings(pieces) == [first.Spelling()] + Spellings(rest);
    }
  }

  /** Every value is written so: an `xdata` field names exactly the keys that its value spells. */
  lemma {:induction false} XdataNamesIff(value: string, keys: seq<string>)
    ensures TargetKeys("xdata", value) == keys <==> exists pieces :: Lists(value, pieces) && KeysOf(pieces) == keys
  {
    SplitPieces(value, ',');
    var pieces := PiecesAreWritten(Split(value, ','));
    assert Lists(value, pieces);
    XdataNames(value, pieces);
    if exists others :: Lists(value, others) && KeysOf(others) == keys {
      var others :| Lists(value, others) && KeysOf(others) == keys;
      XdataNames(value, others);
    }
  }

  /** A `crossref` field names one key: its value without the white space around it. */
  lemma {:induction false} CrossrefNamesIff(value: string, key: string)
    ensures TargetKeys("crossref", value) == [key] <==>
            exists before, after :: IsWhite(before) && IsWhite(after) && IsTrimmed(key) && value == before + key + after
  {
    var before, after := TrimCuts(value);
    assert "crossref"[0] != "xdata"[0];
    if exists b, a :: IsWhite(b) && IsWhite(a) && IsTrimmed(key) && value == b + key + a {
      var b, a :| IsWhite(b) && IsWhite(a) && IsTrimmed(key) && value == b + key + a;
      TrimDrops(b, key, a);
    }
  }

  // ---------------------------------------------------------------------------
  // The links of an entry

  /** A field with a value has one link for each key, in order; without one it has a link that leads nowhere. */
  lemma {:induction false} FieldLinksName(field: Field)
    ensures var links := FieldLinks(field);
            match field.value.resolved
            case None => links == [Link(field, None)]
            case Some(value) =>
              && |links| == |TargetKeys(field.name, value)|
              && forall i :: 0 <= i < |links| ==> links[i] == Link(field, Some(TargetKeys(field.name, value)[i]))
  {
  }

  /** Fields are followed one after the other, and only `crossref` and `xdata`. */
  lemma {:induction false} LinksInOrder(front: seq<Field>, field: Field, rest: seq<Field>)
    ensures Links(front + [field] + rest) == Links(front)
            + (if field.name == "crossref" || field.name == "xdata" then FieldLinks(field) else []) + Links(rest)
  {
    if rest == [] {
      assert front + [field] + rest == front + [field];
      assert (front + [field])[..|front|] == front;
    } else {
      var all, last := front + [field] + rest, |rest| - 1;
      assert all[..|all| - 1] == front + [field] + rest[..last];
      LinksInOrder(front, field, rest[..last]);
    }
  }

  /** The links of an entry with an `xdata` field, among them one for each key that it spells. */
  lemma {:induction false} XdataLinks(front: seq<Field>, field: Field, rest: seq<Field>, pieces: seq<Written>)
    requires field.name == "xdata" && field.value.resolved.Some? && Lists(field.value.resolved.value, pieces)
    ensures exists links :: Links(front + [field] + rest) == Links(front) + links + Links(rest)
              && |links| == |KeysOf(pieces)|
              && forall i :: 0 <= i < |links| ==> links[i] == Link(field, Some(KeysOf(pieces)[i]))
  {
    XdataNames(field.value.resolved.value, pieces);
    LinksInOrder(front, field, rest);
    assert |FieldLinks(field)| == |KeysOf(pieces)|;
  }

  // ---------------------------------------------------------------------------
  // The entries of a key

  /** The candidates for a key are all entries that carry it, once each and in order. */
  lemma {:induction false} CandidatesCarryKey(entries: seq<Entry>, key: string)
    ensures var found := Candidates(entries, key);
            && (forall i: nat :: i in found <==> i < |entries| && entries[i].key == key)
            && (forall k, l :: 0 <= k < l < |found| ==> found[k] < found[l])
  {
    if entries != [] {
      var last := |entries| - 1;
      var front, found := Candidates(entries[..last], key), Candidates(entries, key);
      CandidatesCarryKey(entries[..last], key);
      forall i: nat ensures i in found <==> i < |entries| && entries[i].key == key {
        assert i in front <==> i < last && entries[..last][i].key == key;
      }
      assert forall k :: 0 <= k < |front| ==> front[k] in front;
    }
  }
}
