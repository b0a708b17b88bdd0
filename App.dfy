/**
 * The application component of the image zipper: ingestion of an uploaded
 * list of URLs, the selection state over that list, and the loop that
 * fetches the selected URLs in batches of ten and names the archive entries.
 *
 * Fetching is not modelled: the loop receives one FetchOutcome per URL.
 * The archive is modelled by its entry names, each mapped to the 1-based
 * ordinal of the URL whose payload it holds.
 */
module App {
  import opened JsString

  /** One row of the list: a URL and whether it is selected. */
  datatype Item = Item(url: string, selected: bool)

  /** What fetching one URL and reading its body gave: a payload with its
      declared content type, or an exception. */
  datatype FetchOutcome = Fetched(contentType: string) | Failed

  datatype Option<T> = None | Some(value: T)

  const BatchSize: nat := 10

  function Urls(items: seq<Item>): (urls: seq<string>)
    ensures |urls| == |items|
    ensures forall i :: 0 <= i < |items| ==> urls[i] == items[i].url
  {
    seq(|items|, i requires 0 <= i < |items| => items[i].url)
  }

  // ---------------------------------------------------------------------
  // Ingestion
  // ---------------------------------------------------------------------

  /** `.filter((line) => line)`: keeps the non-empty strings, in order. */
  function NonEmpty(lines: seq<string>): (kept: seq<string>)
    ensures |kept| <= |lines|
    ensures forall i :: 0 <= i < |kept| ==> kept[i] != "" && kept[i] in lines
  {
    if |lines| == 0 then []
    else (if lines[0] == "" then [] else [lines[0]]) + NonEmpty(lines[1..])
  }

  /** A line is kept exactly when it is one of the input lines and not empty. */
  lemma {:induction false} NonEmptyMembers(lines: seq<string>)
    ensures forall x :: x in NonEmpty(lines) <==> x in lines && x != ""
  {
    if |lines| > 0 {
      NonEmptyMembers(lines[1..]);
      assert lines == [lines[0]] + lines[1..];
    }
  }

  /** The positions of the non-empty lines, in increasing order. */
  function NonEmptyIndices(lines: seq<string>): seq<nat>
  {
    if |lines| == 0 then []
    else
      var tail := NonEmptyIndices(lines[1..]);
      (if lines[0] == "" then [] else [0]) + seq(|tail|, j requires 0 <= j < |tail| => tail[j] + 1)
  }

  /** The j-th kept line is the line at the j-th non-empty position. */
  lemma {:induction false} NonEmptyIndicesMatch(lines: seq<string>)
    ensures |NonEmptyIndices(lines)| == |NonEmpty(lines)|
    ensures forall j :: 0 <= j < |NonEmptyIndices(lines)| ==>
      NonEmptyIndices(lines)[j] < |lines| && NonEmpty(lines)[j] == lines[NonEmptyIndices(lines)[j]]
  {
    if |lines| > 0 {
      var tail := lines[1..];
      NonEmptyIndicesMatch(tail);
      var idx, kept := NonEmptyIndices(lines), NonEmpty(lines);
      var tailIdx, tailKept := NonEmptyIndices(tail), NonEmpty(tail);
      var head := if lines[0] == "" then 0 else 1;
      assert |idx| == head + |tailIdx| && |kept| == head + |tailKept|;
      forall j | head <= j < |idx|
        ensures idx[j] < |lines| && kept[j] == lines[idx[j]]
      {
        assert idx[j] == tailIdx[j - head] + 1;
        assert kept[j] == tailKept[j - head] == tail[tailIdx[j - head]];
      }
    }
  }

  /** The non-empty positions increase. */
  lemma {:induction false} NonEmptyIndicesIncrease(lines: seq<string>)
    ensures forall j, k :: 0 <= j < k < |NonEmptyIndices(lines)| ==>
      NonEmptyIndices(lines)[j] < NonEmptyIndices(lines)[k]
  {
    if |lines| > 0 {
      NonEmptyIndicesIncrease(lines[1..]);
    }
  }

  /** Every non-empty position is listed. */
  lemma {:induction false} NonEmptyIndicesComplete(lines: seq<string>)
    ensures forall i :: 0 <= i < |lines| && lines[i] != "" ==> i in NonEmptyIndices(lines)
  {
    if |lines| > 0 {
      var tail := NonEmptyIndices(lines[1..]);
      NonEmptyIndicesComplete(lines[1..]);
      forall i | 1 <= i < |lines| && lines[i] != "" ensures i in NonEmptyIndices(lines) {
        assert lines[1..][i - 1] == lines[i];
        var j :| 0 <= j < |tail| && tail[j] == i - 1;
        assert NonEmptyIndices(lines)[j + (if lines[0] == "" then 0 else 1)] == i;
      }
    }
  }

  /** The filter keeps exactly the non-empty lines, in their order: the j-th
      kept line is the line at the j-th non-empty position, the positions
      increase, and every non-empty position is listed. */
  lemma NonEmptyInOrder(lines: seq<string>)
    ensures var idx := NonEmptyIndices(lines);
      && |idx| == |NonEmpty(lines)|
      && (forall j :: 0 <= j < |idx| ==> idx[j] < |lines| && lines[idx[j]] != "" && NonEmpty(lines)[j] == lines[idx[j]])
      && (forall j, k :: 0 <= j < k < |idx| ==> idx[j] < idx[k])
      && (forall i :: 0 <= i < |lines| && lines[i] != "" ==> i in idx)
  {
    NonEmptyIndicesMatch(lines);
    NonEmptyIndicesIncrease(lines);
    NonEmptyIndicesComplete(lines);
  }

  /** The list built from an uploaded text: every non-empty line, unselected. */
  function Parse(text: string): (items: seq<Item>)
    ensures forall i :: 0 <= i < |items| ==>
      items[i].url != "" && '\n' !in items[i].url && !items[i].selected
  {
    var lines := NonEmpty(Split(text, '\n'));
    seq(|lines|, i requires 0 <= i < |lines| => Item(lines[i], false))
  }

  function Concat(parts: seq<string>): string
  {
    if |parts| == 0 then "" else parts[0] + Concat(parts[1..])
  }

  /** `s` with every occurrence of `c` removed. */
  function Without(s: string, c: char): string
  {
    if |s| == 0 then "" else (if s[0] == c then "" else [s[0]]) + Without(s[1..], c)
  }

  lemma {:induction false} ConcatNonEmpty(lines: seq<string>)
    ensures Concat(NonEmpty(lines)) == Concat(lines)
  {
    if |lines| > 0 {
      ConcatNonEmpty(lines[1..]);
      if lines[0] == "" {
        assert NonEmpty(lines) == NonEmpty(lines[1..]);
      } else {
        assert ([lines[0]] + NonEmpty(lines[1..]))[1..] == NonEmpty(lines[1..]);
      }
    }
  }

  lemma {:induction false} ConcatSplit(s: string, sep: char)
    ensures Concat(Split(s, sep)) == Without(s, sep)
    decreases |s|
  {
    if |s| > 0 {
      ConcatSplit(s[1..], sep);
      var rest := Split(s[1..], sep);
      if s[0] == sep {
        assert ([""] + rest)[1..] == rest;
      } else {
        var parts := [[s[0]] + rest[0]] + rest[1..];
        assert parts[1..] == rest[1..];
        assert Concat(rest) == rest[0] + Concat(rest[1..]);
      }
    }
  }

  /** Ingestion keeps every character of the text except the newlines, in
      order: carriage returns and spaces stay inside the URLs. */
  lemma ParseKeepsText(text: string)
    ensures Concat(Urls(Parse(text))) == Without(text, '\n')
  {
    var lines := NonEmpty(Split(text, '\n'));
    assert Urls(Parse(text)) == lines;
    ConcatNonEmpty(Split(text, '\n'));
    ConcatSplit(text, '\n');
  }

  /** A text with k newlines gives at most k + 1 items. */
  lemma ParseLength(text: string)
    ensures |Parse(text)| <= Occurrences(text, '\n') + 1
  {
    SplitCount(text, '\n');
  }

  /** Writing lines (none holding a newline) one per line and uploading
      the result gives back exactly the non-empty lines, in order. */
  lemma ParseJoin(lines: seq<string>)
    requires |lines| >= 1
    requires forall i :: 0 <= i < |lines| ==> '\n' !in lines[i]
    ensures Urls(Parse(Join(lines, '\n'))) == NonEmpty(lines)
    ensures forall i :: 0 <= i < |Parse(Join(lines, '\n'))| ==> !Parse(Join(lines, '\n'))[i].selected
  {
    SplitJoin(lines, '\n');
  }

  /** Only empty lines are dropped: a Windows line ending leaves '\r' on the URL. */
  lemma ParseKeepsCarriageReturn()
    ensures Parse("a\r\n\nb") == [Item("a\r", false), Item("b", false)]
  {
    var lines := ["a\r", "", "b"];
    assert Join(lines, '\n') == "a\r\n\nb" by {
      assert lines[1..] == ["", "b"] && lines[1..][1..] == ["b"];
    }
    SplitJoin(lines, '\n');
    assert NonEmpty(["a\r", "", "b"]) == ["a\r", "b"] by {
      assert ["a\r", "", "b"][1..][1..] == ["b"];
      assert ["a\r", "", "b"][1..] == ["", "b"];
      assert NonEmpty(["b"]) == ["b"] by { assert ["b"][1..] == []; }
    }
  }

  // ---------------------------------------------------------------------
  // Selection
  // ---------------------------------------------------------------------

  /** The row checkbox handler's update: flips the flag at `index`. An index
      outside the list matches no row and changes nothing. */
  function Toggle(items: seq<Item>, index: int): (r: seq<Item>)
    ensures |r| == |items| && Urls(r) == Urls(items)
    ensures forall i :: 0 <= i < |items| && i != index ==> r[i] == items[i]
    ensures 0 <= index < |items| ==> r[index].selected == !items[index].selected
  {
    seq(|items|, i requires 0 <= i < |items| =>
      Item(items[i].url, if i == index then !items[i].selected else items[i].selected))
  }

  /** The select-all handler's update: every flag set to `selected`. */
  function SelectAll(items: seq<Item>, selected: bool): (r: seq<Item>)
    ensures |r| == |items| && Urls(r) == Urls(items)
    ensures forall i :: 0 <= i < |r| ==> r[i].selected == selected
  {
    seq(|items|, i requires 0 <= i < |items| => Item(items[i].url, selected))
  }

  /** Toggling the same row twice restores the list. */
  lemma ToggleTwice(items: seq<Item>, index: int)
    ensures Toggle(Toggle(items, index), index) == items
  {
    var r := Toggle(Toggle(items, index), index);
    forall i | 0 <= i < |items| ensures r[i] == items[i] {
      assert Urls(r)[i] == Urls(items)[i];
    }
  }

  /** An index outside the list changes nothing. */
  lemma ToggleOutOfRange(items: seq<Item>, index: int)
    requires index < 0 || index >= |items|
    ensures Toggle(items, index) == items
  {
  }

  /** Select-all is idempotent, and the last select-all decides every flag. */
  lemma SelectAllTwice(items: seq<Item>, first: bool, second: bool)
    ensures SelectAll(SelectAll(items, first), second) == SelectAll(items, second)
  {
    var a := SelectAll(SelectAll(items, first), second);
    var b := SelectAll(items, second);
    forall i | 0 <= i < |items| ensures a[i] == b[i] {
      assert Urls(a)[i] == Urls(b)[i];
    }
  }

  /** `.filter((item) => item.selected).map((item) => item.url)`. */
  function SelectedUrls(items: seq<Item>): (urls: seq<string>)
    ensures |urls| <= |items|
  {
    if |items| == 0 then []
    else
      var n := |items| - 1;
      SelectedUrls(items[..n]) + (if items[n].selected then [items[n].url] else [])
  }

  /** Every URL is a selected URL exactly when every item is selected. */
  lemma {:induction false} SelectedUrlsAll(items: seq<Item>)
    ensures |SelectedUrls(items)| == |items| <==> forall i :: 0 <= i < |items| ==> items[i].selected
  {
    if |items| > 0 {
      var n := |items| - 1;
      SelectedUrlsAll(items[..n]);
      assert forall i :: 0 <= i < n ==> items[..n][i] == items[i];
    }
  }

  /** The positions of the selected items, in increasing order. */
  function SelectedIndices(items: seq<Item>): seq<nat>
  {
    if |items| == 0 then []
    else
      var n := |items| - 1;
      SelectedIndices(items[..n]) + (if items[n].selected then [n] else [])
  }

  /** The j-th selected URL is the URL of the j-th selected position. */
  lemma {:induction false} SelectedIndicesMatch(items: seq<Item>)
    ensures var idx := SelectedIndices(items);
      && |idx| == |SelectedUrls(items)|
      && (forall j :: 0 <= j < |idx| ==>
            idx[j] < |items| && items[idx[j]].selected && SelectedUrls(items)[j] == items[idx[j]].url)
  {
    if |items| > 0 {
      var n := |items| - 1;
      var pre := items[..n];
      SelectedIndicesMatch(pre);
      var idx := SelectedIndices(items);
      var prevIdx := SelectedIndices(pre);
      assert forall j :: 0 <= j < |prevIdx| ==> idx[j] == prevIdx[j] && pre[prevIdx[j]] == items[prevIdx[j]];
    }
  }

  /** The selected positions increase, each below the length of the list. */
  lemma {:induction false} SelectedIndicesIncrease(items: seq<Item>)
    ensures forall j :: 0 <= j < |SelectedIndices(items)| ==> SelectedIndices(items)[j] < |items|
    ensures forall j, k :: 0 <= j < k < |SelectedIndices(items)| ==>
      SelectedIndices(items)[j] < SelectedIndices(items)[k]
  {
    if |items| > 0 {
      var n := |items| - 1;
      var prevIdx := SelectedIndices(items[..n]);
      SelectedIndicesIncrease(items[..n]);
      var idx := SelectedIndices(items);
      assert idx == prevIdx + (if items[n].selected then [n] else []);
      forall j, k | 0 <= j < k < |idx| ensures idx[j] < idx[k] {
        if k < |prevIdx| {
          assert idx[j] == prevIdx[j] && idx[k] == prevIdx[k];
        } else {
          assert idx[j] == prevIdx[j] && idx[k] == n;
        }
      }
    }
  }

  /** Every selected position is listed. */
  lemma {:induction false} SelectedIndicesComplete(items: seq<Item>)
    ensures forall i :: 0 <= i < |items| && items[i].selected ==> i in SelectedIndices(items)
  {
    if |items| > 0 {
      var n := |items| - 1;
      var pre := items[..n];
      SelectedIndicesComplete(pre);
      forall i | 0 <= i < |items| && items[i].selected ensures i in SelectedIndices(items) {
        if i < n {
          assert pre[i] == items[i];
        }
      }
    }
  }

  /** The selected URLs are the URLs of exactly the selected items, in the
      order of the list: the j-th selected URL is the URL of the j-th
      selected position, positions increase, and every selected position
      is listed. */
  lemma SelectedUrlsInOrder(items: seq<Item>)
    ensures var idx := SelectedIndices(items);
      && |idx| == |SelectedUrls(items)|
      && (forall j :: 0 <= j < |idx| ==>
            idx[j] < |items| && items[idx[j]].selected && SelectedUrls(items)[j] == items[idx[j]].url)
      && (forall j, k :: 0 <= j < k < |idx| ==> idx[j] < idx[k])
      && (forall i :: 0 <= i < |items| && items[i].selected ==> i in idx)
  {
    SelectedIndicesMatch(items);
    SelectedIndicesIncrease(items);
    SelectedIndicesComplete(items);
  }

  /** `fileContent.some((item) => item.selected)`. */
  function AnySelected(items: seq<Item>): (r: bool)
    ensures r <==> exists i :: 0 <= i < |items| && items[i].selected
  {
    if |items| == 0 then false
    else items[0].selected || (assert forall i :: 0 <= i < |items| - 1 ==> items[1..][i] == items[i + 1]; AnySelected(items[1..]))
  }

  lemma {:induction false} AnySelectedIff(items: seq<Item>)
    ensures AnySelected(items) <==> SelectedUrls(items) != []
  {
    if |items| > 0 {
      var n := |items| - 1;
      AnySelectedIff(items[..n]);
      assert forall i :: 0 <= i < n ==> items[..n][i] == items[i];
      if AnySelected(items) && !items[n].selected {
        var i :| 0 <= i < |items| && items[i].selected;
        assert items[..n][i].selected;
      }
    }
  }

  /** The download button is enabled exactly when something is selected and
      no download is running. */
  function DownloadEnabled(items: seq<Item>, isDownloading: bool): (enabled: bool)
    ensures enabled <==> SelectedUrls(items) != [] && !isDownloading
  {
    AnySelectedIff(items);
    AnySelected(items) && !isDownloading
  }

  /** The last item adds one selected URL when it is selected, none otherwise. */
  lemma SelectedCountStep(items: seq<Item>)
    requires |items| > 0
    ensures |SelectedUrls(items)| == |SelectedUrls(items[..|items| - 1])| + (if items[|items| - 1].selected then 1 else 0)
  {
  }

  /** Toggling a row in range changes the number of selected URLs by one. */
  lemma {:induction false} ToggleSelectedCount(items: seq<Item>, index: int)
    requires 0 <= index < |items|
    ensures |SelectedUrls(Toggle(items, index))|
         == |SelectedUrls(items)| + (if items[index].selected then -1 else 1)
  {
    var n := |items| - 1;
    var t := Toggle(items, index);
    assert t[..n] == Toggle(items[..n], index);
    SelectedCountStep(t);
    SelectedCountStep(items);
    if index < n {
      ToggleSelectedCount(items[..n], index);
    } else {
      assert Toggle(items[..n], index) == items[..n];
    }
  }

  /** Selecting all makes every URL a selected URL; clearing all leaves none. */
  lemma SelectAllSelectedUrls(items: seq<Item>)
    ensures SelectedUrls(SelectAll(items, true)) == Urls(items)
    ensures SelectedUrls(SelectAll(items, false)) == []
  {
    var all := SelectAll(items, true);
    SelectedUrlsInOrder(all);
    var idx := SelectedIndices(all);
    SelectedUrlsAll(all);
    assert |idx| == |all|;
    IndicesAreIdentity(idx, |all|);
    assert SelectedUrls(SelectAll(items, false)) == [] by {
      var none := SelectAll(items, false);
      if SelectedUrls(none) != [] {
        AnySelectedIff(none);
      }
    }
  }

  /** A strictly increasing sequence of n positions below n is 0, 1, ..., n-1. */
  lemma {:induction false} IndicesAreIdentity(idx: seq<nat>, n: nat)
    requires |idx| == n
    requires forall j :: 0 <= j < |idx| ==> idx[j] < n
    requires forall j, k :: 0 <= j < k < |idx| ==> idx[j] < idx[k]
    ensures forall j :: 0 <= j < n ==> idx[j] == j
  {
    if n > 0 {
      assert idx[n - 1] == n - 1 by {
        Increasing(idx, 0);
      }
      IndicesAreIdentity(idx[..n - 1], n - 1);
    }
  }

  lemma {:induction false} Increasing(idx: seq<nat>, j: nat)
    requires j < |idx|
    requires forall a, b :: 0 <= a < b < |idx| ==> idx[a] < idx[b]
    ensures idx[|idx| - 1] >= idx[j] + (|idx| - 1 - j)
    decreases |idx| - j
  {
    if j < |idx| - 1 {
      Increasing(idx, j + 1);
    }
  }

  // ---------------------------------------------------------------------
  // Batches and archive entries
  // ---------------------------------------------------------------------

  function Min(a: int, b: int): int
  {
    if a <= b then a else b
  }

  /** The batches `urls.slice(i, i + 10)` for i = 0, 10, 20, ... */
  function Batches(urls: seq<string>): (batches: seq<seq<string>>)
    ensures forall b :: 0 <= b < |batches| ==> 1 <= |batches[b]| <= BatchSize
    decreases |urls|
  {
    if |urls| == 0 then []
    else if |urls| <= BatchSize then [urls]
    else [urls[..BatchSize]] + Batches(urls[BatchSize..])
  }

  function Flatten(batches: seq<seq<string>>): seq<string>
  {
    if |batches| == 0 then [] else batches[0] + Flatten(batches[1..])
  }

  /** There are ceil(n / 10) batches. */
  lemma {:induction false} BatchesLength(urls: seq<string>)
    ensures |Batches(urls)| == (|urls| + BatchSize - 1) / BatchSize
    decreases |urls|
  {
    if |urls| > BatchSize {
      BatchesLength(urls[BatchSize..]);
    }
  }

  /** A slice of what follows the first d elements is a slice of the whole. */
  lemma DropSlice(s: seq<string>, d: nat, lo: nat, hi: nat)
    requires d <= |s| && lo <= hi <= |s| - d
    ensures s[d..][lo..hi] == s[d + lo..d + hi]
  {
    forall k | 0 <= k < hi - lo ensures s[d..][lo..hi][k] == s[d + lo..d + hi][k] {
      assert s[d..][lo + k] == s[d + lo + k];
    }
  }

  /** Batch b is the slice of the list starting at b * 10. */
  lemma {:induction false} BatchSlice(urls: seq<string>, b: nat)
    requires b < |Batches(urls)|
    ensures b * BatchSize < |urls|
    ensures Batches(urls)[b] == urls[b * BatchSize .. Min(b * BatchSize + BatchSize, |urls|)]
    decreases b
  {
    if b > 0 {
      var rest := urls[BatchSize..];
      assert Batches(urls)[b] == Batches(rest)[b - 1];
      BatchSlice(rest, b - 1);
      var lo := (b - 1) * BatchSize;
      assert lo + BatchSize == b * BatchSize;
      var hi := Min(lo + BatchSize, |rest|);
      DropSlice(urls, BatchSize, lo, hi);
      assert hi + BatchSize == Min(b * BatchSize + BatchSize, |urls|);
    }
  }

  /** Batch b is the slice starting at b * 10, so its j-th URL is at position
      b * 10 + j of the list; there are ceil(n / 10) batches, all of size 10
      except the last, which holds between 1 and 10 URLs. */
  lemma BatchShape(urls: seq<string>)
    ensures var batches := Batches(urls);
      && |batches| == (|urls| + BatchSize - 1) / BatchSize
      && (forall b :: 0 <= b < |batches| ==>
            b * BatchSize < |urls| &&
            batches[b] == urls[b * BatchSize .. Min(b * BatchSize + BatchSize, |urls|)])
      && (forall b :: 0 <= b < |batches| - 1 ==> |batches[b]| == BatchSize)
      && (|batches| > 0 ==> 1 <= |batches[|batches| - 1]| <= BatchSize)
  {
    var batches := Batches(urls);
    BatchesLength(urls);
    forall b | 0 <= b < |batches|
      ensures b * BatchSize < |urls|
      ensures batches[b] == urls[b * BatchSize .. Min(b * BatchSize + BatchSize, |urls|)]
    {
      BatchSlice(urls, b);
    }
    forall b | 0 <= b < |batches| - 1
      ensures |batches[b]| == BatchSize
    {
      BatchSlice(urls, b + 1);
      assert b * BatchSize + BatchSize == (b + 1) * BatchSize;
    }
  }

  /** The batches, put back together, are the whole list in order. */
  lemma {:induction false} BatchesCover(urls: seq<string>)
    ensures Flatten(Batches(urls)) == urls
    decreases |urls|
  {
    if |urls| > BatchSize {
      BatchesCover(urls[BatchSize..]);
      assert ([urls[..BatchSize]] + Batches(urls[BatchSize..]))[1..] == Batches(urls[BatchSize..]);
      assert urls == urls[..BatchSize] + urls[BatchSize..];
    } else if |urls| > 0 {
      assert [urls][1..] == [];
      assert urls + [] == urls;
    }
  }

  /** The URL at offset j of batch b is the URL at position b * 10 + j of the
      list, so the ordinal b * 10 + j + 1 given to it is its 1-based
      position, and two different (batch, offset) pairs never share one. */
  lemma BatchOrdinal(urls: seq<string>, b: nat, j: nat, b': nat, j': nat)
    requires b < |Batches(urls)| && j < |Batches(urls)[b]|
    requires b' < |Batches(urls)| && j' < |Batches(urls)[b']|
    ensures b * BatchSize + j < |urls| && Batches(urls)[b][j] == urls[b * BatchSize + j]
    ensures (b, j) != (b', j') ==> b * BatchSize + j != b' * BatchSize + j'
  {
    BatchShape(urls);
  }

  /** 25 selected URLs form three batches: 10, 10 and 5. */
  lemma TwentyFiveUrls(urls: seq<string>)
    requires |urls| == 25
    ensures |Batches(urls)| == 3
    ensures |Batches(urls)[0]| == 10 && |Batches(urls)[1]| == 10 && |Batches(urls)[2]| == 5
  {
    BatchShape(urls);
  }

  /** The extension of an entry: `type.split('/')[1]` inside a template
      literal, so a type with no '/' gives the text "undefined". */
  function Extension(contentType: string): (ext: string)
    ensures '/' !in contentType ==> ext == "undefined"
    ensures '/' in contentType ==>
      var after := contentType[IndexOf(contentType, '/') + 1..];
      && '/' !in ext && |ext| <= |after| && after[..|ext|] == ext
      && (|ext| == |after| || after[|ext|] == '/')
  {
    var parts := Split(contentType, '/');
    if '/' in contentType then
      SplitAfterFirst(contentType, '/');
      var after := contentType[IndexOf(contentType, '/') + 1..];
      SplitFirst(after, '/');
      Split(after, '/')[0]
    else
      SplitPrefix(contentType, "", '/');
      assert contentType + "" == contentType;
      "undefined"
  }

  /** The extension is the second '/'-separated piece of the content type;
      a content type without '/' (an empty one included) gives "undefined". */
  lemma ExtensionExamples()
    ensures Extension("a/b/c") == "b"
    ensures Extension("") == "undefined"
    ensures Extension("png") == "undefined"
  {
  }

  /** The extension of `major/minor...` is `minor` when neither part holds a '/'. */
  lemma ExtensionOf(major: string, minor: string, rest: string)
    requires '/' !in major && '/' !in minor
    requires rest == "" || rest[0] == '/'
    ensures Extension(major + "/" + minor + rest) == minor
  {
    var t := major + "/" + minor + rest;
    assert t[|major|] == '/';
    var k := IndexOf(t, '/');
    assert k == |major|;
    var after := t[k + 1..];
    assert after == minor + rest;
    var ext := Extension(t);
    assert |ext| <= |after| && after[..|ext|] == ext;
    assert ext == after[..|minor|] == minor;
  }

  /** `image${ordinal}.${extension}` */
  function EntryName(ordinal: nat, ext: string): (name: string)
    ensures |name| >= |ext| + 7 && name[..5] == "image" && name[|name| - |ext| - 1..] == "." + ext
  {
    "image" + NumberToString(ordinal) + "." + ext
  }

  /** The ordinal written in an entry name, read back. */
  function EntryOrdinal(name: string): nat
  {
    if |name| >= 5 && name[..5] == "image" then DigitsValue(LeadingDigits(name[5..])) else 0
  }

  /** An entry name gives back its ordinal, so two entries with different
      ordinals never share a name (and never overwrite each other). */
  lemma EntryNameOrdinal(ordinal: nat, ext: string)
    ensures EntryOrdinal(EntryName(ordinal, ext)) == ordinal
  {
    var digits := NumberToString(ordinal);
    var name := EntryName(ordinal, ext);
    assert name[..5] == "image";
    assert name[5..] == digits + ("." + ext);
    LeadingDigitsOf(digits, "." + ext);
    NumberToStringValue(ordinal);
  }

  lemma EntryNameInjective(a: nat, extA: string, b: nat, extB: string)
    requires EntryName(a, extA) == EntryName(b, extB)
    ensures a == b && extA == extB
  {
    EntryNameOrdinal(a, extA);
    EntryNameOrdinal(b, extB);
    var prefix := "image" + NumberToString(a) + ".";
    assert EntryName(a, extA) == prefix + extA;
    assert EntryName(b, extB) == prefix + extB;
    assert extA == (prefix + extA)[|prefix|..];
    assert extB == (prefix + extB)[|prefix|..];
  }

  /** Number of fetches that succeeded. */
  function Successes(outcomes: seq<FetchOutcome>): (count: nat)
    ensures count <= |outcomes|
  {
    if |outcomes| == 0 then 0
    else
      var n := |outcomes| - 1;
      Successes(outcomes[..n]) + (if outcomes[n].Fetched? then 1 else 0)
  }

  /** Every URL counts exactly when every fetch succeeded. */
  lemma {:induction false} SuccessesAllFetched(outcomes: seq<FetchOutcome>)
    ensures Successes(outcomes) == |outcomes| <==> forall k :: 0 <= k < |outcomes| ==> outcomes[k].Fetched?
  {
    if |outcomes| > 0 {
      var n := |outcomes| - 1;
      SuccessesAllFetched(outcomes[..n]);
      assert forall k :: 0 <= k < n ==> outcomes[..n][k] == outcomes[k];
    }
  }

  /** The archive after the outcomes of the first |outcomes| URLs: each
      success adds an entry named after the URL's 1-based position. */
  function ZipEntries(outcomes: seq<FetchOutcome>): (entries: map<string, nat>)
    ensures |entries| <= |outcomes|
  {
    if |outcomes| == 0 then map[]
    else
      var n := |outcomes| - 1;
      var prev := ZipEntries(outcomes[..n]);
      match outcomes[n]
      case Fetched(t) => prev[EntryName(n + 1, Extension(t)) := n + 1]
      case Failed => prev
  }

  /** One entry of the archive names a successful fetch: its value is the
      1-based position k of that URL, and its name is `image{k}.{ext}`
      with ext taken from that fetch's content type. */
  lemma {:induction false} ZipEntrySound(outcomes: seq<FetchOutcome>, name: string)
    requires name in ZipEntries(outcomes)
    ensures 1 <= ZipEntries(outcomes)[name] <= |outcomes|
    ensures outcomes[ZipEntries(outcomes)[name] - 1].Fetched?
    ensures name == EntryName(ZipEntries(outcomes)[name],
                              Extension(outcomes[ZipEntries(outcomes)[name] - 1].contentType))
    decreases |outcomes|
  {
    var n := |outcomes| - 1;
    var pre := outcomes[..n];
    var prev := ZipEntries(pre);
    if outcomes[n].Fetched? && name == EntryName(n + 1, Extension(outcomes[n].contentType)) {
      assert ZipEntries(outcomes)[name] == n + 1;
    } else {
      assert name in prev && ZipEntries(outcomes)[name] == prev[name];
      ZipEntrySound(pre, name);
      assert pre[prev[name] - 1] == outcomes[prev[name] - 1];
    }
  }

  /** The ordinal written in any entry of the archive built from k outcomes
      lies between 1 and k. */
  lemma {:induction false} ZipEntryOrdinalBound(outcomes: seq<FetchOutcome>, name: string)
    requires name in ZipEntries(outcomes)
    ensures 1 <= EntryOrdinal(name) <= |outcomes|
    decreases |outcomes|
  {
    var n := |outcomes| - 1;
    if outcomes[n].Fetched? && name == EntryName(n + 1, Extension(outcomes[n].contentType)) {
      EntryNameOrdinal(n + 1, Extension(outcomes[n].contentType));
    } else {
      ZipEntryOrdinalBound(outcomes[..n], name);
    }
  }

  /** The entry that a success at position k would add is not yet in the
      archive built from the first k outcomes. */
  lemma NewEntryIsNew(outcomes: seq<FetchOutcome>, ext: string)
    ensures EntryName(|outcomes| + 1, ext) !in ZipEntries(outcomes)
  {
    var newName := EntryName(|outcomes| + 1, ext);
    if newName in ZipEntries(outcomes) {
      ZipEntryOrdinalBound(outcomes, newName);
      EntryNameOrdinal(|outcomes| + 1, ext);
    }
  }

  /** The success at 0-based position k keeps its entry `image{k+1}.{ext}`,
      mapped to k + 1, in the archive of any longer run of outcomes. */
  lemma {:induction false} ZipEntryKept(outcomes: seq<FetchOutcome>, k: nat)
    requires k < |outcomes| && outcomes[k].Fetched?
    ensures EntryName(k + 1, Extension(outcomes[k].contentType)) in ZipEntries(outcomes)
    ensures ZipEntries(outcomes)[EntryName(k + 1, Extension(outcomes[k].contentType))] == k + 1
    decreases |outcomes|
  {
    var n := |outcomes| - 1;
    if k < n {
      var pre := outcomes[..n];
      assert pre[k] == outcomes[k];
      ZipEntryKept(pre, k);
      if outcomes[n].Fetched? {
        var name := EntryName(k + 1, Extension(outcomes[k].contentType));
        var newName := EntryName(n + 1, Extension(outcomes[n].contentType));
        if name == newName {
          EntryNameInjective(k + 1, Extension(outcomes[k].contentType), n + 1, Extension(outcomes[n].contentType));
        }
      }
    }
  }

  /** Every successful fetch has its entry: the URL at 0-based position k
      is stored as `image{k+1}.{ext}`, mapped to k + 1, and is not
      overwritten by a later entry. */
  lemma ZipEntriesComplete(outcomes: seq<FetchOutcome>)
    ensures forall k :: 0 <= k < |outcomes| && outcomes[k].Fetched? ==>
      EntryName(k + 1, Extension(outcomes[k].contentType)) in ZipEntries(outcomes) &&
      ZipEntries(outcomes)[EntryName(k + 1, Extension(outcomes[k].contentType))] == k + 1
  {
    forall k | 0 <= k < |outcomes| && outcomes[k].Fetched?
      ensures EntryName(k + 1, Extension(outcomes[k].contentType)) in ZipEntries(outcomes)
      ensures ZipEntries(outcomes)[EntryName(k + 1, Extension(outcomes[k].contentType))] == k + 1
    {
      ZipEntryKept(outcomes, k);
    }
  }

  /** The archive has exactly as many entries as there were successes. */
  lemma {:induction false} ZipEntriesCount(outcomes: seq<FetchOutcome>)
    ensures |ZipEntries(outcomes)| == Successes(outcomes)
  {
    if |outcomes| > 0 {
      var n := |outcomes| - 1;
      ZipEntriesCount(outcomes[..n]);
      if outcomes[n].Fetched? {
        NewEntryIsNew(outcomes[..n], Extension(outcomes[n].contentType));
      }
    }
  }

  /** Three URLs whose middle fetch fails: the entries keep ordinals 1 and
      3, with no renumbering. */
  lemma MiddleFailureKeepsOrdinals(first: string, third: string)
    ensures ZipEntries([Fetched(first), Failed, Fetched(third)])
         == map[EntryName(1, Extension(first)) := 1, EntryName(3, Extension(third)) := 3]
  {
    var o := [Fetched(first), Failed, Fetched(third)];
    assert o[..2] == [Fetched(first), Failed];
    assert o[..2][..1] == [Fetched(first)];
    assert [Fetched(first)][..0] == [];
    assert ZipEntries([Fetched(first)]) == map[EntryName(1, Extension(first)) := 1];
    assert ZipEntries(o[..2]) == map[EntryName(1, Extension(first)) := 1];
  }

  /** Entry names as they appear in the archive. */
  lemma EntryNameExamples()
    ensures EntryName(1, "png") == "image1.png"
    ensures EntryName(12, Extension("")) == "image12.undefined"
  {
  }

  /** One more outcome: the archive and the counter after k + 1 outcomes,
      from those after k. */
  lemma ZipStep(outcomes: seq<FetchOutcome>, k: nat)
    requires k < |outcomes|
    ensures ZipEntries(outcomes[..k + 1]) ==
      if outcomes[k].Fetched?
      then ZipEntries(outcomes[..k])[EntryName(k + 1, Extension(outcomes[k].contentType)) := k + 1]
      else ZipEntries(outcomes[..k])
    ensures Successes(outcomes[..k + 1]) ==
      Successes(outcomes[..k]) + (if outcomes[k].Fetched? then 1 else 0)
  {
    assert outcomes[..k + 1][..k] == outcomes[..k];
  }

  /** The number of steps of ten from 0 that first reach or pass n is ceil(n / 10). */
  lemma BatchCount(n: nat, steps: nat)
    requires n <= steps * BatchSize < n + BatchSize
    ensures steps == (n + BatchSize - 1) / BatchSize
  {
  }

  /** Slices taken at 0, 10, 20, ... up to the end of the list are its batches. */
  lemma BatchesFromSlices(urls: seq<string>, batches: seq<seq<string>>)
    requires |batches| == (|urls| + BatchSize - 1) / BatchSize
    requires forall b :: 0 <= b < |batches| ==>
      b * BatchSize < |urls| &&
      batches[b] == urls[b * BatchSize .. Min(b * BatchSize + BatchSize, |urls|)]
    ensures batches == Batches(urls)
  {
    BatchShape(urls);
  }

  /**
   * The body of `batchUrls.map(async (url, index) => ...)` for the batch
   * starting at position i, with fetching replaced by the given outcomes:
   * the URL at offset `index` gets the ordinal i + index + 1; a successful
   * fetch adds its entry and bumps the counter, a failed one does neither.
   */
  method ProcessBatch(outcomes: seq<FetchOutcome>, i: nat, batchLength: nat,
                      entries0: map<string, nat>, filesDownloaded0: nat)
    returns (entries: map<string, nat>, filesDownloaded: nat)
    requires i + batchLength <= |outcomes|
    requires entries0 == ZipEntries(outcomes[..i])
    requires filesDownloaded0 == Successes(outcomes[..i])
    ensures entries == ZipEntries(outcomes[..i + batchLength])
    ensures filesDownloaded == Successes(outcomes[..i + batchLength])
  {
    entries, filesDownloaded := entries0, filesDownloaded0;
    var index := 0;
    while index < batchLength
      invariant 0 <= index <= batchLength
      invariant entries == ZipEntries(outcomes[..i + index])
      invariant filesDownloaded == Successes(outcomes[..i + index])
    {
      var ordinal := i + index + 1;
      ZipStep(outcomes, ordinal - 1);
      var outcome := outcomes[ordinal - 1];
      if outcome.Fetched? {
        entries := entries[EntryName(ordinal, Extension(outcome.contentType)) := ordinal];
        filesDownloaded := filesDownloaded + 1;
      }
      index := index + 1;
    }
  }

  /**
   * The loop of `downloadAndZipImages`, with fetching replaced by the given
   * outcomes (one per URL, in list order). It walks the list in slices of
   * ten, `batchUrls = selectedImageUrls.slice(i, i + 10)`, and hands each
   * slice to ProcessBatch. Nothing is awaited in the loop, so the batching
   * shapes only the ordinals: the archive and the counter are those of one
   * pass over the whole list, and the slices are exactly Batches.
   */
  method DownloadAndZipImages(selectedImageUrls: seq<string>, outcomes: seq<FetchOutcome>)
    returns (entries: map<string, nat>, filesDownloaded: nat, ghost batches: seq<seq<string>>)
    requires |outcomes| == |selectedImageUrls|
    ensures entries == ZipEntries(outcomes)
    ensures filesDownloaded == Successes(outcomes) == |entries|
    ensures batches == Batches(selectedImageUrls) && Flatten(batches) == selectedImageUrls
  {
    var totalFiles := |selectedImageUrls|;
    entries, filesDownloaded := map[], 0;
    batches := [];
    var i := 0;
    while i < totalFiles
      invariant i == |batches| * BatchSize && i < totalFiles + BatchSize
      invariant forall b :: 0 <= b < |batches| ==>
        b * BatchSize < totalFiles &&
        batches[b] == selectedImageUrls[b * BatchSize .. Min(b * BatchSize + BatchSize, totalFiles)]
      invariant entries == ZipEntries(outcomes[..Min(i, totalFiles)])
      invariant filesDownloaded == Successes(outcomes[..Min(i, totalFiles)])
    {
      var batchUrls := selectedImageUrls[i .. Min(i + BatchSize, totalFiles)];
      entries, filesDownloaded := ProcessBatch(outcomes, i, |batchUrls|, entries, filesDownloaded);
      batches := batches + [batchUrls];
      i := i + BatchSize;
    }
    assert outcomes[..totalFiles] == outcomes;
    BatchCount(totalFiles, |batches|);
    ZipEntriesCount(outcomes);
    BatchesFromSlices(selectedImageUrls, batches);
    BatchesCover(selectedImageUrls);
  }

  // ---------------------------------------------------------------------
  // Component state
  // ---------------------------------------------------------------------

  /** The application component's state: the list and the "downloading" flag. */
  class AppState {
    var fileContent: seq<Item>
    var isDownloading: bool

    constructor ()
      ensures fileContent == [] && !isDownloading
    {
      fileContent := [];
      isDownloading := false;
    }

    /** The button's enabled state as rendered. */
    predicate DownloadButtonEnabled()
      reads this
      ensures DownloadButtonEnabled() <==> SelectedUrls(fileContent) != [] && !isDownloading
    {
      DownloadEnabled(fileContent, isDownloading)
    }

    /** Upload handler: with no file chosen nothing happens; otherwise the
        text's list replaces the whole previous list. */
    method HandleFileUpload(file: Option<string>)
      modifies this
      ensures file.None? ==> fileContent == old(fileContent)
      ensures file.Some? ==> fileContent == Parse(file.value)
      ensures isDownloading == old(isDownloading)
    {
      if file.Some? {
        fileContent := Parse(file.value);
      }
    }

    method OnSelect(index: int)
      modifies this
      ensures fileContent == Toggle(old(fileContent), index)
      ensures isDownloading == old(isDownloading)
    {
      fileContent := Toggle(fileContent, index);
    }

    method OnSelectAll(selected: bool)
      modifies this
      ensures fileContent == SelectAll(old(fileContent), selected)
      ensures isDownloading == old(isDownloading)
    {
      fileContent := SelectAll(fileContent, selected);
    }

    /** Click handler: downloads the URLs selected at the moment of the
        click, with the flag raised during the run and lowered after it. */
    method HandleDownloadClick(outcomes: seq<FetchOutcome>) returns (entries: map<string, nat>)
      requires |outcomes| == |SelectedUrls(fileContent)|
      modifies this
      ensures entries == ZipEntries(outcomes)
      ensures fileContent == old(fileContent) && !isDownloading
    {
      var selectedUrls := SelectedUrls(fileContent);
      isDownloading := true;
      var filesDownloaded;
      ghost var batches;
      entries, filesDownloaded, batches := DownloadAndZipImages(selectedUrls, outcomes);
      isDownloading := false;
    }
  }

}
