/** The `/detail/:manhwaId` extraction: title, cover and synopsis with `''`
    fallbacks, the metadata map folded from the info blocks, and the chapter
    list in document order. */
module Detail {
  import opened Wrappers
  import opened JsText
  import opened Dom

  /** One `.infox .info-content` block: its `.info-label` and `.info-value`. */
  datatype InfoBlock = InfoBlock(infoLabel: Option<Node>, infoValue: Option<Node>)

  /** One `#chapterlist li`: its first `a` and its `.chapterdate`. */
  datatype ChapterItem = ChapterItem(link: Option<Node>, date: Option<Node>)

  /** One entry of `chapters`. */
  datatype ChapterEntry = ChapterEntry(title: string, url: string, date: string)

  /** The title page, reduced to the results of its queries: `.entry-title`,
      `.thumb img`, `.entry-content p`, the info blocks and the chapter items,
      both in document order. */
  datatype DetailPage = DetailPage(
    entryTitle: Option<Node>,
    thumbImg: Option<Node>,
    synopsis: Option<Node>,
    infoBlocks: seq<InfoBlock>,
    chapterItems: seq<ChapterItem>)

  /** The response body. */
  datatype MangaDetail = MangaDetail(
    title: string,
    image: string,
    synopsis: string,
    metadata: map<string, string>,
    chapters: seq<ChapterEntry>)

  // ---------------------------------------------------------------------
  // Metadata
  // ---------------------------------------------------------------------

  lemma {:induction false} LowerKeepsColons(s: string)
    ensures multiset(ToLowerAscii(s))[':'] == multiset(s)[':']
  {
    if |s| > 0 {
      var n := |s| - 1;
      LowerKeepsColons(s[..n]);
      assert s == s[..n] + [s[n]];
      assert ToLowerAscii(s) == ToLowerAscii(s[..n]) + [LowerChar(s[n])];
    }
  }

  lemma NoCapitalAfterNormalizing(text: string)
    ensures var r := RemoveFirst(ToLowerAscii(text), ':');
      forall k :: 0 <= k < |r| ==> !('A' <= r[k] <= 'Z')
  {
    var lower := ToLowerAscii(text);
    var r := RemoveFirst(lower, ':');
    forall k | 0 <= k < |r|
      ensures !('A' <= r[k] <= 'Z')
    {
      match IndexOf(lower, ':')
      case None =>
        assert r[k] == lower[k];
      case Some(i) =>
        if k < i {
          assert r[k] == lower[k];
        } else {
          assert r[k] == lower[k + 1];
        }
    }
  }

  lemma ColonsAfterNormalizing(text: string)
    ensures var r := RemoveFirst(ToLowerAscii(text), ':');
      && (':' in text ==> |r| == |text| - 1 && multiset(r)[':'] == multiset(text)[':'] - 1)
      && (':' !in text ==> |r| == |text| && ':' !in r)
  {
    LowerKeepsColons(text);
    assert (':' in text) == (':' in multiset(ToLowerAscii(text)));
  }

  /** Lower-casing commutes with slicing. */
  lemma {:induction false} LowerOfSlice(s: string, i: nat, j: nat)
    requires i <= j <= |s|
    ensures ToLowerAscii(s)[i..j] == ToLowerAscii(s[i..j])
  {
    var a := ToLowerAscii(s)[i..j];
    var b := ToLowerAscii(s[i..j]);
    forall k | 0 <= k < |a|
      ensures a[k] == b[k]
    {
      assert a[k] == LowerChar(s[i + k]);
      assert b[k] == LowerChar(s[i..j][k]);
    }
  }

  /** Only a colon lower-cases to a colon. */
  lemma LowerColon(c: char)
    ensures LowerChar(c) == ':' <==> c == ':'
  {
  }

  /** The first colon of the lower-cased label is the label's first colon,
      and the text around it is the lower-cased text around that colon. */
  lemma {:induction false} FirstColonSplit(text: string, k: nat)
    requires k < |text|
    requires ToLowerAscii(text)[k] == ':' && ':' !in ToLowerAscii(text)[..k]
    ensures text[k] == ':' && ':' !in text[..k]
    ensures ToLowerAscii(text)[..k] + ToLowerAscii(text)[k + 1..]
         == ToLowerAscii(text[..k]) + ToLowerAscii(text[k + 1..])
  {
    var lower := ToLowerAscii(text);
    LowerColon(text[k]);
    forall m | 0 <= m < k
      ensures text[..k][m] != ':'
    {
      assert lower[..k][m] == lower[m];
      LowerColon(text[m]);
    }
    LowerOfSlice(text, 0, k);
    LowerOfSlice(text, k + 1, |text|);
    assert text[..k] == text[0..k] && lower[..k] == lower[0..k];
    assert text[k + 1..] == text[k + 1..|text|] && lower[k + 1..] == lower[k + 1..|lower|];
  }

  lemma {:induction false} FirstColonAfterNormalizing(text: string)
    ensures var r := RemoveFirst(ToLowerAscii(text), ':');
      && (':' in text ==> exists k :: 0 <= k < |text| && text[k] == ':' && ':' !in text[..k]
                                      && r == ToLowerAscii(text[..k]) + ToLowerAscii(text[k + 1..]))
      && (':' !in text ==> r == ToLowerAscii(text))
  {
    var lower := ToLowerAscii(text);
    var r := RemoveFirst(lower, ':');
    LowerKeepsColons(text);
    assert (':' in text) == (':' in multiset(lower));
    if ':' in text {
      var k :| 0 <= k < |lower| && lower[k] == ':' && ':' !in lower[..k] && r == lower[..k] + lower[k + 1..];
      FirstColonSplit(text, k);
    }
  }

  /** `label.toLowerCase().replace(':', '')`: the label in lower case with
      its first colon, wherever it stands, removed and any later colon kept;
      the text on either side of that colon is lower-cased in place. */
  function NormalizeLabel(text: string): (r: string)
    ensures forall k :: 0 <= k < |r| ==> !('A' <= r[k] <= 'Z')
    ensures ':' in text ==> |r| == |text| - 1 && multiset(r)[':'] == multiset(text)[':'] - 1
    ensures ':' !in text ==> |r| == |text| && ':' !in r
    ensures ':' in text ==> exists k :: 0 <= k < |text| && text[k] == ':' && ':' !in text[..k]
                                        && r == ToLowerAscii(text[..k]) + ToLowerAscii(text[k + 1..])
    ensures ':' !in text ==> r == ToLowerAscii(text)
  {
    NoCapitalAfterNormalizing(text);
    ColonsAfterNormalizing(text);
    FirstColonAfterNormalizing(text);
    RemoveFirst(ToLowerAscii(text), ':')
  }

  /** The key a block writes: its trimmed label text (`''` without a label), normalised. */
  function MetaKey(b: InfoBlock): string {
    NormalizeLabel(TextOr(b.infoLabel))
  }

  /** The value a block writes: its trimmed value text, or `''`. */
  function MetaValue(b: InfoBlock): string {
    TextOr(b.infoValue)
  }

  /** The assignments `metadata[key] = value`, run in order on an empty
      object. Deno gives plain objects no inherited `__proto__` accessor, so
      every key, `__proto__` included, becomes an own property. */
  function AssignAll(writes: seq<(string, string)>): map<string, string> {
    if |writes| == 0 then map[]
    else
      var n := |writes| - 1;
      AssignAll(writes[..n])[writes[n].0 := writes[n].1]
  }

  /** A key is present exactly when some assignment writes it. */
  lemma {:induction false} AssignAllKeys(writes: seq<(string, string)>)
    ensures forall key :: key in AssignAll(writes) <==> exists i :: 0 <= i < |writes| && writes[i].0 == key
  {
    if |writes| > 0 {
      var n := |writes| - 1;
      var before := writes[..n];
      AssignAllKeys(before);
      assert forall i :: 0 <= i < n ==> before[i] == writes[i];
    }
  }

  /** Each key holds the value of the last assignment that writes it. */
  lemma {:induction false} AssignAllLastWrite(writes: seq<(string, string)>)
    ensures forall i :: 0 <= i < |writes| && (forall j :: i < j < |writes| ==> writes[j].0 != writes[i].0) ==>
              writes[i].0 in AssignAll(writes) && AssignAll(writes)[writes[i].0] == writes[i].1
  {
    if |writes| > 0 {
      var n := |writes| - 1;
      var before := writes[..n];
      AssignAllLastWrite(before);
      forall i | 0 <= i < |writes| && (forall j :: i < j < |writes| ==> writes[j].0 != writes[i].0)
        ensures writes[i].0 in AssignAll(writes) && AssignAll(writes)[writes[i].0] == writes[i].1
      {
        if i < n {
          assert before[i] == writes[i];
          forall j | i < j < n
            ensures before[j].0 != before[i].0
          {
            assert before[j] == writes[j];
          }
        }
      }
    }
  }

  /** Repeated keys collapse: the map never has more keys than there are assignments. */
  lemma {:induction false} AssignAllSize(writes: seq<(string, string)>)
    ensures |AssignAll(writes)| <= |writes|
  {
    if |writes| > 0 {
      var n := |writes| - 1;
      AssignAllSize(writes[..n]);
      var m := AssignAll(writes[..n]);
      var key := writes[n].0;
      assert m[key := writes[n].1].Keys == m.Keys + {key};
    }
  }

  /** The assignment each info block makes, in document order. */
  function Writes(blocks: seq<InfoBlock>): (w: seq<(string, string)>)
    ensures |w| == |blocks|
    ensures forall i :: 0 <= i < |blocks| ==> w[i] == (MetaKey(blocks[i]), MetaValue(blocks[i]))
  {
    seq(|blocks|, i requires 0 <= i < |blocks| => (MetaKey(blocks[i]), MetaValue(blocks[i])))
  }

  /** The `forEach` over the info blocks: a key is present exactly when some
      block writes it, it holds the value of the
      last block that writes it, and there are no more keys than blocks. */
  function FoldMetadata(blocks: seq<InfoBlock>): (r: map<string, string>)
    ensures forall key :: key in r <==> exists i :: 0 <= i < |blocks| && MetaKey(blocks[i]) == key
    ensures forall i :: 0 <= i < |blocks| && (forall j :: i < j < |blocks| ==> MetaKey(blocks[j]) != MetaKey(blocks[i])) ==>
              r[MetaKey(blocks[i])] == MetaValue(blocks[i])
    ensures |r| <= |blocks|
  {
    var w := Writes(blocks);
    AssignAllSize(w);
    AssignAllKeys(w);
    AssignAllLastWrite(w);
    WritesKeysFollowBlocks(blocks);
    WritesValuesFollowBlocks(blocks);
    AssignAll(w)
  }

  /** The keys of the assignment view, restated block by block. */
  lemma WritesKeysFollowBlocks(blocks: seq<InfoBlock>)
    ensures var r := AssignAll(Writes(blocks));
      forall key :: key in r <==> exists i :: 0 <= i < |blocks| && MetaKey(blocks[i]) == key
  {
    var w := Writes(blocks);
    var r := AssignAll(w);
    AssignAllKeys(w);
    forall key
      ensures key in r <==> exists i :: 0 <= i < |blocks| && MetaKey(blocks[i]) == key
    {
      if key in r {
        var i :| 0 <= i < |w| && w[i].0 == key;
        assert MetaKey(blocks[i]) == key;
      }
      if exists i :: 0 <= i < |blocks| && MetaKey(blocks[i]) == key {
        var i :| 0 <= i < |blocks| && MetaKey(blocks[i]) == key;
        assert w[i].0 == key;
      }
    }
  }

  /** The values of the assignment view, restated block by block. */
  lemma WritesValuesFollowBlocks(blocks: seq<InfoBlock>)
    ensures var r := AssignAll(Writes(blocks));
      forall i :: 0 <= i < |blocks| && (forall j :: i < j < |blocks| ==> MetaKey(blocks[j]) != MetaKey(blocks[i])) ==>
        MetaKey(blocks[i]) in r && r[MetaKey(blocks[i])] == MetaValue(blocks[i])
  {
    var w := Writes(blocks);
    var r := AssignAll(w);
    AssignAllLastWrite(w);
    forall i | 0 <= i < |blocks| && (forall j :: i < j < |blocks| ==> MetaKey(blocks[j]) != MetaKey(blocks[i]))
      ensures MetaKey(blocks[i]) in r && r[MetaKey(blocks[i])] == MetaValue(blocks[i])
    {
      assert w[i] == (MetaKey(blocks[i]), MetaValue(blocks[i]));
      forall j | i < j < |w|
        ensures w[j].0 != w[i].0
      {
        assert w[j].0 == MetaKey(blocks[j]);
      }
    }
  }

  // ---------------------------------------------------------------------
  // Chapters
  // ---------------------------------------------------------------------

  /** The entry pushed for one list item; a missing link or date yields `''`
      for the fields read from it. */
  function ChapterOf(item: ChapterItem): (r: ChapterEntry)
    ensures item.link.None? ==> r.title == "" && r.url == ""
    ensures item.link.Some? ==> IsTrimOf(item.link.value.text, r.title)
    ensures item.link.Some? && "href" in item.link.value.attributes ==> r.url == item.link.value.attributes["href"]
    ensures item.link.Some? && "href" !in item.link.value.attributes ==> r.url == ""
    ensures item.date.None? ==> r.date == ""
    ensures item.date.Some? ==> IsTrimOf(item.date.value.text, r.date)
  {
    ChapterEntry(TextOr(item.link), AttrOr(item.link, "href"), TextOr(item.date))
  }

  /** `chapters`: one entry per list item, in document order, never re-sorted. */
  function Chapters(items: seq<ChapterItem>): (r: seq<ChapterEntry>)
    ensures |r| == |items|
    ensures forall i :: 0 <= i < |items| ==> r[i] == ChapterOf(items[i])
  {
    if |items| == 0 then [] else Chapters(items[..|items| - 1]) + [ChapterOf(items[|items| - 1])]
  }

  /** The chapter list of a reordered page is reordered the same way. */
  lemma ChaptersFollowPermutation(items: seq<ChapterItem>, perm: seq<nat>)
    requires |perm| == |items|
    requires forall k :: 0 <= k < |perm| ==> perm[k] < |items|
    ensures |Chapters(seq(|perm|, k requires 0 <= k < |perm| => items[perm[k]]))| == |perm|
    ensures forall k :: 0 <= k < |perm| ==>
      Chapters(seq(|perm|, k requires 0 <= k < |perm| => items[perm[k]]))[k] == Chapters(items)[perm[k]]
  {
  }

  // ---------------------------------------------------------------------
  // The whole page
  // ---------------------------------------------------------------------

  /** The extraction part of the `/detail/:manhwaId` handler. No missing
      element stops it: every string falls back to `''`. */
  function ExtractDetail(page: DetailPage): (r: MangaDetail)
    ensures page.entryTitle.None? ==> r.title == ""
    ensures page.entryTitle.Some? ==> IsTrimOf(page.entryTitle.value.text, r.title)
    ensures page.thumbImg.Some? && "src" in page.thumbImg.value.attributes ==>
              r.image == page.thumbImg.value.attributes["src"]
    ensures !(page.thumbImg.Some? && "src" in page.thumbImg.value.attributes) ==> r.image == ""
    ensures page.synopsis.None? ==> r.synopsis == ""
    ensures page.synopsis.Some? ==> IsTrimOf(page.synopsis.value.text, r.synopsis)
    ensures forall key :: key in r.metadata <==>
              exists i :: 0 <= i < |page.infoBlocks| && MetaKey(page.infoBlocks[i]) == key
    ensures forall i :: 0 <= i < |page.infoBlocks|
                        && (forall j :: i < j < |page.infoBlocks| ==> MetaKey(page.infoBlocks[j]) != MetaKey(page.infoBlocks[i])) ==>
              MetaKey(page.infoBlocks[i]) in r.metadata && r.metadata[MetaKey(page.infoBlocks[i])] == MetaValue(page.infoBlocks[i])
    ensures |r.metadata| <= |page.infoBlocks|
    ensures |r.chapters| == |page.chapterItems|
    ensures forall i :: 0 <= i < |page.chapterItems| ==> r.chapters[i] == ChapterOf(page.chapterItems[i])
  {
    MangaDetail(
      TextOr(page.entryTitle),
      AttrOr(page.thumbImg, "src"),
      TextOr(page.synopsis),
      FoldMetadata(page.infoBlocks),
      Chapters(page.chapterItems))
  }
}
