/** The text `main` produces (gmodfastdl.go:19-179, without its I/O): the workshop
    lines, then the FastDL block built from the walk; and a reader that takes that
    text apart again. */
module FastDL {
  import opened Strings
  import opened AssetFilter
  import opened Normalize
  import opened Script
  import opened Workshop

  /** Lines 37-50, 73-109 and the `workshopContent + fastdlString` written at lines 124,
      143 and 162. A zero `workshopId` leaves the workshop text empty and makes no
      request (the operator's confirmation is taken as given); a failed request also
      leaves it empty. */
  method Generate(workshopId: int, page: Option<seq<WorkshopItem>>, entries: seq<Entry>,
                  osSep: char, gmodPath: string) returns (text: string)
    ensures text == (if workshopId == 0 || page.None? then "" else WorkshopBlock(page.value)) +
                    Block(Accepted(Collected(entries, osSep), osSep, gmodPath))
  {
    var workshopContent := "";
    if workshopId != 0 {
      var failed;
      workshopContent, failed := GetWorkshopAddons(page);
    }
    var fastdl := Collect(entries, osSep);
    var fastdlString := EmitBlock(fastdl, osSep, gmodPath);
    text := workshopContent + fastdlString;
  }

  /** Reads generated text back: workshop lines while the text starts like one, then
      the FastDL block. */
  function ParseOutput(text: string): Option<(seq<WorkshopItem>, seq<string>)>
    decreases |text|
  {
    if StartsWith(text, AddFileOpen) then
      var line := TakeUntil(text, '\n');
      if |line| == |text| then None
      else match (ParseWorkshopLine(line), ParseOutput(text[|line| + 1..]))
        case (Some(item), Some((items, ps))) => Some(([item] + items, ps))
        case _ => None
    else
      match ParseBlock(text)
      case Some(ps) => Some(([], ps))
      case None => None
  }

  /** With no workshop lines, the text is the block, which does not start like one. */
  lemma BlockOnlyParses(ps: seq<string>)
    requires forall p :: p in ps ==> '\n' !in p
    ensures ParseOutput(Block(ps)) == Some(([], ps))
  {
    var s := Block(ps);
    assert s[0] == 'i' && AddFileOpen[0] == 'r';
    assert !StartsWith(s, AddFileOpen);
    BlockRoundTrip(ps);
  }

  /** A leading workshop line is read back as its item, and the reader goes on with the
      text after it. */
  lemma WorkshopLineParses(item: WorkshopItem, rest: string)
    requires Scraped(item)
    ensures ParseOutput(WorkshopLine(item) + rest) ==
            match ParseOutput(rest)
            case Some((items, ps)) => Some(([item] + items, ps))
            case None => None
  {
    WorkshopLineRoundTrip(item, rest);
  }

  /** The workshop lines and the declarations can both be recovered from the text. */
  lemma {:induction false} OutputRoundTrip(items: seq<WorkshopItem>, ps: seq<string>)
    requires forall k :: 0 <= k < |items| ==> Scraped(items[k])
    requires forall p :: p in ps ==> '\n' !in p
    ensures ParseOutput(WorkshopBlock(items) + Block(ps)) == Some((items, ps))
  {
    if |items| == 0 {
      assert WorkshopBlock(items) + Block(ps) == Block(ps);
      BlockOnlyParses(ps);
    } else {
      var rest := WorkshopBlock(items[1..]) + Block(ps);
      ConcatAssoc(WorkshopLine(items[0]), WorkshopBlock(items[1..]), Block(ps));
      assert WorkshopBlock(items) + Block(ps) == WorkshopLine(items[0]) + rest;
      OutputRoundTrip(items[1..], ps);
      WorkshopLineParses(items[0], rest);
      assert [items[0]] + items[1..] == items;
    }
  }

  /** Whatever the walk and the page, the generated text reads back as the scraped items
      (none when no id was given or the request failed) followed by the accepted paths in
      walk order, duplicates kept. */
  lemma GeneratedTextParses(workshopId: int, page: Option<seq<WorkshopItem>>, entries: seq<Entry>,
                            osSep: char, gmodPath: string)
    requires page.Some? ==> forall k :: 0 <= k < |page.value| ==> Scraped(page.value[k])
    ensures var items := if workshopId == 0 || page.None? then [] else page.value;
            var ps := Accepted(Collected(entries, osSep), osSep, gmodPath);
            ParseOutput(WorkshopBlock(items) + Block(ps)) == Some((items, ps))
  {
    var items := if workshopId == 0 || page.None? then [] else page.value;
    var ps := Accepted(Collected(entries, osSep), osSep, gmodPath);
    AcceptedSingleLine(Collected(entries, osSep), osSep, gmodPath);
    OutputRoundTrip(items, ps);
  }
}
