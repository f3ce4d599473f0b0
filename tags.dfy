/**
  Normalisation of the `tags` field of a request body. The create handler
  (routes/ideaRoutes.js:72-80) and the update handler (162-169) both turn a
  comma-separated string into trimmed, non-empty tags, keep an array exactly
  as it was sent and turn any other value into no tags; they test the
  string and array cases in opposite orders.
 */
module Tags {
  import Text

  /** The shapes the JSON body can give `tags`: a string, an array (of
      strings), or anything else (absent, null, a number, an object, ...). */
  datatype RawTags = Str(s: string) | List(items: seq<string>) | Other

  /** `.filter(Boolean)` on strings: drops the empty ones, keeps the rest in order. */
  function DropEmpty(xs: seq<string>): (r: seq<string>)
    ensures |r| <= |xs|
    ensures forall i :: 0 <= i < |r| ==> r[i] != ""
    ensures forall t :: t in r <==> t in xs && t != ""
  {
    if |xs| == 0 then []
    else if xs[0] == "" then DropEmpty(xs[1..])
    else [xs[0]] + DropEmpty(xs[1..])
  }

  /** `.map((tag) => tag.trim())` */
  function TrimEach(xs: seq<string>): (r: seq<string>)
    ensures |r| == |xs|
    ensures forall i :: 0 <= i < |xs| ==> r[i] == Text.Trim(xs[i])
  {
    if |xs| == 0 then [] else [Text.Trim(xs[0])] + TrimEach(xs[1..])
  }

  /** `tags.split(',').map(trim).filter(Boolean)` */
  function FromText(s: string): (r: seq<string>)
    ensures forall i :: 0 <= i < |r| ==> r[i] != "" && ',' !in r[i] && Text.Trim(r[i]) == r[i]
  {
    var pieces := Text.Split(s, ',');
    var trimmed := TrimEach(pieces);
    TrimEachNormal(pieces);
    assert forall i :: 0 <= i < |trimmed| ==> ',' !in trimmed[i] && Text.Trim(trimmed[i]) == trimmed[i];
    var r := DropEmpty(trimmed);
    assert forall i :: 0 <= i < |r| ==> r[i] in trimmed;
    r
  }

  lemma TrimEachNormal(pieces: seq<string>)
    requires forall i :: 0 <= i < |pieces| ==> ',' !in pieces[i]
    ensures forall i :: 0 <= i < |pieces| ==>
      ',' !in TrimEach(pieces)[i] && Text.Trim(TrimEach(pieces)[i]) == TrimEach(pieces)[i]
  {
    forall i | 0 <= i < |pieces|
      ensures ',' !in TrimEach(pieces)[i] && Text.Trim(TrimEach(pieces)[i]) == TrimEach(pieces)[i]
    {
      Text.TrimIdempotent(pieces[i]);
      Text.TrimKeepsOut(pieces[i], ',');
    }
  }

  /** Tags as the create handler computes them: string first, then array. */
  function ForCreate(t: RawTags): (r: seq<string>)
    ensures t.Str? ==> r == FromText(t.s)
    ensures t.List? ==> r == t.items
    ensures t.Other? ==> r == []
  {
    if t.Str? then FromText(t.s)
    else if t.List? then t.items
    else []
  }

  /** Tags as the update handler computes them: array first, then string. */
  function ForUpdate(t: RawTags): (r: seq<string>)
    ensures t.List? ==> r == t.items
    ensures t.Str? ==> r == FromText(t.s)
    ensures t.Other? ==> r == []
  {
    if t.List? then t.items
    else if t.Str? then FromText(t.s)
    else []
  }

  /** The two handlers agree on every input, whatever order they test in;
      an array is stored as sent and any other non-string value gives no tags. */
  lemma CreateAndUpdateAgree(t: RawTags)
    ensures ForCreate(t) == ForUpdate(t)
    ensures t.List? ==> ForCreate(t) == t.items
    ensures t.Other? ==> ForCreate(t) == []
  {
  }

  /** Filtering distributes over concatenation: the kept tags stay in source order. */
  lemma {:induction false} DropEmptyAppend(xs: seq<string>, ys: seq<string>)
    ensures DropEmpty(xs + ys) == DropEmpty(xs) + DropEmpty(ys)
  {
    if |xs| > 0 {
      assert (xs + ys)[1..] == xs[1..] + ys;
      DropEmptyAppend(xs[1..], ys);
    } else {
      assert xs + ys == ys;
    }
  }

  /** A sequence without empty strings is kept as it is. */
  lemma {:induction false} DropEmptyKeepsNonEmpty(xs: seq<string>)
    requires forall i :: 0 <= i < |xs| ==> xs[i] != ""
    ensures DropEmpty(xs) == xs
  {
    if |xs| > 0 {
      DropEmptyKeepsNonEmpty(xs[1..]);
    }
  }

  /** Tags already in normal form (non-empty, trimmed, no comma) survive
      being joined with commas and normalised again, in the same order. */
  lemma FromTextJoin(tags: seq<string>)
    requires forall i :: 0 <= i < |tags| ==> tags[i] != "" && ',' !in tags[i] && Text.Trim(tags[i]) == tags[i]
    ensures FromText(Text.Join(tags, ',')) == tags
  {
    if |tags| == 0 {
      assert Text.Join(tags, ',') == "";
      FromTextEmpty();
    } else {
      FromTextJoinSome(tags);
    }
  }

  lemma FromTextJoinSome(tags: seq<string>)
    requires |tags| >= 1
    requires forall i :: 0 <= i < |tags| ==> tags[i] != "" && ',' !in tags[i] && Text.Trim(tags[i]) == tags[i]
    ensures FromText(Text.Join(tags, ',')) == tags
  {
    Text.SplitJoin(tags, ',');
    assert TrimEach(tags) == tags;
    DropEmptyKeepsNonEmpty(tags);
  }

  /** An empty tag string gives no tags: its one empty piece is dropped. */
  lemma FromTextEmpty()
    ensures FromText("") == []
  {
    assert Text.Split("", ',') == [""];
    assert Text.Trim("") == "";
    assert TrimEach([""]) == [""];
    assert DropEmpty([""]) == [];
  }

  lemma SplitExample()
    ensures Text.Split("a, b ,,c", ',') == ["a", " b ", "", "c"]
  {
    var parts := ["a", " b ", "", "c"];
    assert Text.Join(parts[3..], ',') == "c";
    assert Text.Join(parts[2..], ',') == ",c";
    assert Text.Join(parts[1..], ',') == " b ,,c";
    assert Text.Join(parts, ',') == "a, b ,,c";
    Text.SplitJoin(parts, ',');
  }

  lemma TrimEachExample()
    ensures TrimEach(["a", " b ", "", "c"]) == ["a", "b", "", "c"]
  {
    var r := TrimEach(["a", " b ", "", "c"]);
    assert r[0] == Text.Trim("a") == "a";
    assert r[1] == Text.Trim(" b ") == "b";
    assert r[2] == Text.Trim("") == "";
    assert r[3] == Text.Trim("c") == "c";
  }

  lemma DropEmptyExample()
    ensures DropEmpty(["a", "b", "", "c"]) == ["a", "b", "c"]
  {
    var trimmed := ["a", "b", "", "c"];
    assert DropEmpty(trimmed[3..]) == ["c"];
    assert DropEmpty(trimmed[2..]) == ["c"];
    assert DropEmpty(trimmed[1..]) == ["b", "c"];
  }

  /** The worked example: blanks around pieces are trimmed and the empty
      piece between two commas is dropped. */
  lemma FromTextExample()
    ensures FromText("a, b ,,c") == ["a", "b", "c"]
  {
    SplitExample();
    TrimEachExample();
    DropEmptyExample();
  }
}
