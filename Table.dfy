/**
 * The table component: a header checkbox that selects or clears every row,
 * one checkbox per row, a thumbnail and the file name shown for each URL.
 */
module Table {
  import opened JsString
  import opened App

  const ThumbnailQuery: string := "?w=128&h=128&dpr=1"

  /** The name shown for a URL, `url.split('/').pop()`: the text after its
      last '/', or the whole URL when it holds none. */
  function FileName(url: string): (name: string)
    ensures '/' !in name
    ensures |name| <= |url| && url[|url| - |name|..] == name
    ensures '/' in url ==> |name| < |url| && url[|url| - |name| - 1] == '/'
    ensures '/' !in url ==> name == url
  {
    var parts := Split(url, '/');
    SplitLast(url, '/');
    parts[|parts| - 1]
  }

  /** The URL is what precedes its file name, a '/', and the file name. */
  lemma FileNameSplitsUrl(url: string)
    requires '/' in url
    ensures var name := FileName(url);
      url == url[..|url| - |name| - 1] + "/" + name
  {
    var name := FileName(url);
    var k := |url| - |name| - 1;
    assert url == url[..k] + [url[k]] + url[k + 1..];
  }

  /** A URL ending in '/' shows an empty file name. */
  lemma TrailingSlashGivesEmptyName(url: string)
    requires |url| > 0 && url[|url| - 1] == '/'
    ensures FileName(url) == ""
  {
  }

  lemma FileNameExamples()
    ensures FileName("https://host/img/cat.png") == "cat.png"
    ensures FileName("cat.png") == "cat.png"
  {
    var url := "https://host/img/cat.png";
    assert url[|url| - 8] == '/';
    assert '/' !in url[|url| - 7..];
  }

  /** The thumbnail source: the URL followed by the fixed size query. */
  function ThumbnailSrc(url: string): (src: string)
    ensures |src| == |url| + |ThumbnailQuery|
    ensures src[..|url|] == url && src[|url|..] == ThumbnailQuery
  {
    url + ThumbnailQuery
  }

  /** Different URLs never share a thumbnail source. */
  lemma ThumbnailSrcInjective(a: string, b: string)
    requires ThumbnailSrc(a) == ThumbnailSrc(b)
    ensures a == b
  {
  }

  /** What one click on the header checkbox does to the pair (header flag,
      rows): the flag is negated and every row takes the new flag. */
  function HeaderClick(checked: bool, items: seq<Item>): (after: (bool, seq<Item>))
    ensures after.0 == !checked
    ensures |after.1| == |items| && Urls(after.1) == Urls(items)
    ensures forall i :: 0 <= i < |items| ==> after.1[i].selected == !checked
  {
    (!checked, SelectAll(items, !checked))
  }

  /** Two header clicks restore the flag and leave every row with it. */
  lemma HeaderClickTwice(checked: bool, items: seq<Item>)
    ensures var once := HeaderClick(checked, items);
      HeaderClick(once.0, once.1) == (checked, SelectAll(items, checked))
  {
    SelectAllTwice(items, !checked, checked);
  }

  /** From the initial unchecked header, two clicks leave the header
      unchecked and no row selected. */
  lemma TwoHeaderClicksFromStart(items: seq<Item>)
    ensures var once := HeaderClick(false, items);
      var twice := HeaderClick(once.0, once.1);
      !twice.0 && SelectedUrls(twice.1) == []
  {
    HeaderClickTwice(false, items);
    SelectAllSelectedUrls(items);
  }

  /** The header flag is not derived from the rows: after checking it,
      clearing one row leaves the header checked while not every row is. */
  lemma HeaderIgnoresRows(items: seq<Item>, index: int)
    requires 0 <= index < |items|
    ensures var once := HeaderClick(false, items);
      once.0 && |SelectedUrls(Toggle(once.1, index))| < |items|
  {
    var once := HeaderClick(false, items);
    var toggled := Toggle(once.1, index);
    assert !toggled[index].selected;
    SelectedUrlsAll(toggled);
  }

  /** The component's own state: whether the header checkbox is checked.
      It starts unchecked and is never derived from the rows. */
  class TableState {
    var selectAllChecked: bool

    constructor ()
      ensures !selectAllChecked
    {
      selectAllChecked := false;
    }

    /** Header checkbox handler: negates the flag and asks the application
        to set every row to that same new value (the handler reads the flag
        before the update, so `!selectAllChecked` is the new value). */
    method HandleSelectAllChange(app: AppState)
      modifies this, app
      ensures (selectAllChecked, app.fileContent) == HeaderClick(old(selectAllChecked), old(app.fileContent))
      ensures app.isDownloading == old(app.isDownloading)
    {
      var checked := !selectAllChecked;
      selectAllChecked := checked;
      app.OnSelectAll(checked);
    }

    /** Row checkbox handler: toggles that row; the header flag stays. */
    method HandleRowChange(app: AppState, index: int)
      modifies app
      ensures app.fileContent == Toggle(old(app.fileContent), index)
      ensures selectAllChecked == old(selectAllChecked)
      ensures app.isDownloading == old(app.isDownloading)
    {
      app.OnSelect(index);
    }

    /** Two clicks on the header restore its flag and leave every row with it. */
    method HeaderClickedTwice(app: AppState)
      modifies this, app
      ensures selectAllChecked == old(selectAllChecked)
      ensures app.fileContent == SelectAll(old(app.fileContent), selectAllChecked)
    {
      HandleSelectAllChange(app);
      HandleSelectAllChange(app);
      HeaderClickTwice(old(selectAllChecked), old(app.fileContent));
    }
  }
}
