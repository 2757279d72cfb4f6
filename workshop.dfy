/** The formatting loop of `GetWorkshopAddons` (gmodfastdl.go:234-245), fed with the
    (id, title) pairs its regular expression extracted from the collection page. */
module Workshop {
  import opened Strings

  /** One match of the collection page: group 1 (the item id) and group 2 (the title). */
  datatype WorkshopItem = WorkshopItem(id: string, title: string)

  /** What the scraping expression guarantees of a match: the id is `\d+`, and the title,
      matched by `.*`, holds no newline. */
  predicate Scraped(item: WorkshopItem) {
    |item.id| > 0 && AllDigits(item.id) && '\n' !in item.title
  }

  const AddFileOpen: string := "resource.AddFile('"
  const TitleSep: string := "') -- "

  /** The line one item contributes. */
  function WorkshopLine(item: WorkshopItem): string {
    AddFileOpen + item.id + TitleSep + item.title + "\n"
  }

  /** The lines of all items, in match order. */
  function WorkshopBlock(items: seq<WorkshopItem>): string {
    if |items| == 0 then "" else WorkshopLine(items[0]) + WorkshopBlock(items[1..])
  }

  lemma {:induction false} WorkshopBlockAppend(a: seq<WorkshopItem>, b: seq<WorkshopItem>)
    ensures WorkshopBlock(a + b) == WorkshopBlock(a) + WorkshopBlock(b)
  {
    if |a| == 0 {
      assert a + b == b;
    } else {
      assert (a + b)[0] == a[0] && (a + b)[1..] == a[1..] + b;
      assert WorkshopBlock(a + b) == WorkshopLine(a[0]) + WorkshopBlock(a[1..] + b);
      WorkshopBlockAppend(a[1..], b);
      ConcatAssoc(WorkshopLine(a[0]), WorkshopBlock(a[1..]), WorkshopBlock(b));
    }
  }

  /** `GetWorkshopAddons`. `page` is what the fetch and the regular expression produced,
      None when the request or the read of the body failed, in which case the empty
      text and the error are returned. */
  method GetWorkshopAddons(page: Option<seq<WorkshopItem>>) returns (addonString: string, failed: bool)
    ensures failed <==> page.None?
    ensures addonString == if page.None? then "" else WorkshopBlock(page.value)
  {
    if page.None? {
      return "", true;
    }
    var addons := page.value;
    addonString := "";
    for i := 0 to |addons|
      invariant addonString == WorkshopBlock(addons[..i])
    {
      var addon := addons[i];
      assert addons[..i + 1] == addons[..i] + [addon];
      WorkshopBlockAppend(addons[..i], [addon]);
      ghost var before := addonString;
      addonString := addonString + "resource.AddFile('" + addon.id + "')";
      addonString := addonString + " -- " + addon.title;
      addonString := addonString + "\n";
      ConcatAssoc(before, WorkshopLine(addon), "");
      assert addonString == before + WorkshopLine(addon);
    }
    assert addons[..|addons|] == addons;
    failed := false;
  }

  /** Reads one workshop line back (its newline already removed). */
  function ParseWorkshopLine(line: string): Option<WorkshopItem> {
    if !StartsWith(line, AddFileOpen) then None
    else
      var rest := line[|AddFileOpen|..];
      var id := TakeUntil(rest, '\'');
      var tail := rest[|id|..];
      if StartsWith(tail, TitleSep) then Some(WorkshopItem(id, tail[|TitleSep|..])) else None
  }

  lemma IdHasNoQuoteOrNewline(id: string)
    requires AllDigits(id)
    ensures '\n' !in id && '\'' !in id
  {
    forall k | 0 <= k < |id| ensures id[k] != '\n' && id[k] != '\'' {
      assert IsDigit(id[k]);
    }
  }

  /** The line without its newline reads back as the item. */
  lemma ParseWorkshopLineInverts(item: WorkshopItem)
    requires Scraped(item)
    ensures ParseWorkshopLine(AddFileOpen + item.id + TitleSep + item.title) == Some(item)
  {
    IdHasNoQuoteOrNewline(item.id);
    var line := AddFileOpen + item.id + TitleSep + item.title;
    assert line[..|AddFileOpen|] == AddFileOpen;
    var r := line[|AddFileOpen|..];
    assert r == item.id + ['\''] + (TitleSep[1..] + item.title);
    TakeUntilDelimited(item.id, '\'', TitleSep[1..] + item.title);
    assert r[|item.id|..] == TitleSep + item.title;
  }

  /** A scraped item's line parses back to the item, and the text after it is untouched. */
  lemma WorkshopLineRoundTrip(item: WorkshopItem, rest: string)
    requires Scraped(item)
    ensures var line := AddFileOpen + item.id + TitleSep + item.title;
            var s := WorkshopLine(item) + rest;
            StartsWith(s, AddFileOpen) &&
            TakeUntil(s, '\n') == line &&
            s[|line| + 1..] == rest &&
            ParseWorkshopLine(line) == Some(item)
  {
    var line := AddFileOpen + item.id + TitleSep + item.title;
    var s := WorkshopLine(item) + rest;
    IdHasNoQuoteOrNewline(item.id);
    assert '\n' !in line;
    assert s == line + ['\n'] + rest;
    TakeUntilDelimited(line, '\n', rest);
    assert s[..|AddFileOpen|] == AddFileOpen;
    ParseWorkshopLineInverts(item);
  }
}
