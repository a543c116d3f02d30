/**
 Forms as a whole: with a reader of the two header lines that the serialiser writes, names,
 file names, content types and contents come back.
 */
module FormReader {
  import opened Common
  import opened Text
  import opened Multipart
  import opened MultipartRoundTrip

  const TYPE_PREFIX := "Content-Type: "
  const NAME_PREFIX := "Content-Disposition: form-data; name=\""
  const FILENAME_PREFIX := "; filename=\""
  const QUOTE := "\""

  function Without(line: string, prefix: string): Option<string> {
    if prefix <= line then Some(line[|prefix|..]) else None
  }

  /** The text up to the next quote, and what follows that quote. */
  function Quoted(text: string): Option<(string, string)> {
    var pos := Find(text, QUOTE);
    if pos == |text| then None else Some((text[..pos], text[pos + 1..]))
  }

  /** What may follow the name. */
  function ReadFilename(text: string): Option<string> {
    if text == "" then Some("")
    else
      var quoted := Without(text, FILENAME_PREFIX);
      if quoted.None? then None
      else
        var filename := Quoted(quoted.value);
        if filename.Some? && filename.value.1 == "" then Some(filename.value.0) else None
  }

  /** The two header lines of an item. */
  function ReadLine(file: FormData, line: string): Option<FormData> {
    var contentType := Without(line, TYPE_PREFIX);
    if contentType.Some? then Some(file.(contentType := contentType.value))
    else
      var quoted := Without(line, NAME_PREFIX);
      if quoted.None? then None
      else
        var name := Quoted(quoted.value);
        if name.None? then None
        else
          var filename := ReadFilename(name.value.1);
          if filename.None? then None
          else Some(file.(name := name.value.0, filename := filename.value))
  }

  lemma QuoteIsFound(text: string, rest: string)
    requires '"' !in text
    ensures Quoted(text + QUOTE + rest) == Some((text, rest))
  {
    var s := text + QUOTE + rest;
    assert !Occurs(text, QUOTE) by {
      forall i: nat | i + 1 <= |text|
        ensures !OccursAt(text, QUOTE, i)
      {
        assert text[i..i + 1][0] == text[i];
      }
    }
    FirstCharacterIsUnique(QUOTE);
    assert s + "" == s;
    FindInPart(s, "", text, QUOTE, rest);
    assert s[..|text|] == text && s[|text| + 1..] == rest;
  }

  lemma PrefixIsTaken(prefix: string, rest: string)
    ensures Without(prefix + rest, prefix) == Some(rest)
  {
  }

  lemma FilenameIsRead(filename: string)
    requires filename != "" && '"' !in filename
    ensures ReadFilename("; filename=\"" + filename + "\"") == Some(filename)
  {
    var text := "; filename=\"" + filename + "\"";
    assert text == FILENAME_PREFIX + (filename + QUOTE + "");
    PrefixIsTaken(FILENAME_PREFIX, filename + QUOTE + "");
    QuoteIsFound(filename, "");
    assert text != "";
    hide Quoted;
  }

  lemma DispositionIsRead(item: Item, file: FormData)
    requires '"' !in item.name && '"' !in item.filename
    ensures ReadLine(file, DispositionLine(item)) == Some(file.(name := item.name, filename := item.filename))
  {
    var more := if item.filename == "" then "" else "; filename=\"" + item.filename + "\"";
    var line := DispositionLine(item);
    assert line == NAME_PREFIX + (item.name + QUOTE + more);
    assert line[8] == 'D' && TYPE_PREFIX[8] == 'T';
    PrefixIsTaken(NAME_PREFIX, item.name + QUOTE + more);
    QuoteIsFound(item.name, more);
    if item.filename != "" {
      FilenameIsRead(item.filename);
    }
    hide Quoted, ReadFilename, DispositionLine;
    assert ReadFilename("") == Some("") by {
      NoFilename();
    }
  }

  lemma NoFilename()
    ensures ReadFilename("") == Some("")
  {
  }

  function Filled(item: Item): FormData {
    FormData(item.name, item.filename, item.contentType, [])
  }

  lemma LinesAreRead(cfg: Config, item: Item)
    requires cfg.readLine == ReadLine && '"' !in item.name && '"' !in item.filename
    ensures Filed(cfg, NO_FILE, HeaderLines(item)) == Some(Filled(item))
  {
    DispositionIsRead(item, NO_FILE);
    var named := NO_FILE.(name := item.name, filename := item.filename);
    var lines := HeaderLines(item);
    if item.contentType == "" {
      assert lines[1..] == [];
    } else {
      var typeLine := "Content-Type: " + item.contentType;
      assert lines[1..] == [typeLine] && [typeLine][1..] == [];
      PrefixIsTaken(TYPE_PREFIX, item.contentType);
      assert ReadLine(named, typeLine) == Some(named.(contentType := item.contentType));
      assert Filed(cfg, named, [typeLine]) == Some(Filled(item));
    }
    hide DispositionLine, ReadLine;
  }

  predicate NoQuoteNorBreak(s: string) {
    '"' !in s && '\r' !in s
  }

  /** Names without a quote, nothing with a line break, and everything of reasonable length. */
  predicate Sendable(boundary: string, item: Item) {
    && NoQuoteNorBreak(item.name) && NoQuoteNorBreak(item.filename) && '\r' !in item.contentType
    && |item.name| + |item.filename| + 52 < 8192 && |item.contentType| + 14 < 8192
    && !Occurs(item.content, "\r\n--" + boundary)
  }

  lemma SendableIsOk(cfg: Config, item: Item)
    requires cfg.readLine == ReadLine && Sendable(cfg.boundary, item)
    ensures ItemOk(cfg, item)
  {
    LinesAreRead(cfg, item);
    assert cfg.CrlfDashBoundary() == "\r\n--" + cfg.boundary;
    DispositionLineIsOk(item);
    TypeLineIsOk(item);
    hide DispositionLine, LineOk, Occurs, Filed;
  }

  lemma DispositionLineIsOk(item: Item)
    requires NoQuoteNorBreak(item.name) && NoQuoteNorBreak(item.filename)
    requires |item.name| + |item.filename| + 52 < 8192
    ensures LineOk(DispositionLine(item))
  {
    var line := DispositionLine(item);
    var more := if item.filename == "" then "" else "; filename=\"" + item.filename + "\"";
    assert line == NAME_PREFIX + item.name + QUOTE + more;
    assert |NAME_PREFIX| == 38 && |more| <= |item.filename| + 13;
    assert '\r' !in NAME_PREFIX && '\r' !in more;
    NoCrNoLineBreak(line);
    hide Occurs;
  }

  lemma TypeLineIsOk(item: Item)
    requires '\r' !in item.contentType && |item.contentType| + 14 < 8192
    ensures LineOk("Content-Type: " + item.contentType)
  {
    NoCrNoLineBreak("Content-Type: " + item.contentType);
    hide Occurs;
  }

  /**
   A form comes back as it was sent: for items whose names hold no quote, whose header fields
   hold no line break and are not too long, and whose contents do not hold the boundary, every
   way of cutting the text gives back, item by item, the name, the file name, the content type
   and the content.
   */
  lemma FormComesBack(cfg: Config, items: seq<Item>, pieces: seq<string>)
    requires Agreeable(cfg) && cfg.readLine == ReadLine
    requires items != [] && forall item :: item in items ==> Sendable(cfg.boundary, item)
    requires Flatten(pieces) == Serialized(items, cfg.boundary)
    ensures var (r, ok) := ParseAll(cfg, START, pieces);
            && ok && r.valid && |Collect(r.log)| == |items|
            && forall i :: 0 <= i < |items| ==>
                 Collect(r.log)[i] == (FormData(items[i].name, items[i].filename, items[i].contentType, []),
                                       items[i].content)
  {
    forall item | item in items
      ensures ItemOk(cfg, item) && Filed(cfg, NO_FILE, HeaderLines(item)) == Some(Filled(item))
    {
      SendableIsOk(cfg, item);
      LinesAreRead(cfg, item);
    }
    hide Sendable, ItemOk, Filed, HeaderLines, Collect, ParseAll, Serialized, Flatten, Occurs;
    assert "" + Serialized(items, cfg.boundary) == Serialized(items, cfg.boundary);
    NothingInNothing(cfg.DashBoundaryCrlf());
    RoundTripUnderAnySplit(cfg, "", items, pieces);
    forall i | 0 <= i < |items|
      ensures Entries(cfg, items)[i] == (Filled(items[i]), items[i].content)
    {
      assert items[i] in items;
    }
  }

  lemma NothingInNothing(needle: string)
    requires needle != ""
    ensures !Occurs("", needle)
  {
  }

  /** One item without a file name or a content type, character by character. */
  lemma OnePlainItem(item: Item)
    requires item == Item("a", "", "", "x")
    ensures Serialized([item], "b")
         == ("--b\r\n" + "Content-Disposition: form-data; name=\"a\"" + "\r\n\r\n") + "x\r\n" + "--b--\r\n"
  {
    var line := "Content-Disposition: form-data; name=\"a\"";
    assert DASH + "b" + CRLF == "--b\r\n";
    assert DispositionLine(item) == line + "" == line;
    assert ItemBegin(item, "b") == "--b\r\n" + line + "\r\n\r\n";
    assert Serialized([], "b") == "--b--\r\n";
    assert [item][1..] == [];
    hide DispositionLine, ItemBegin;
    assert "x" + CRLF == "x\r\n";
    assert ItemText(item, "b") == ("--b\r\n" + line + "\r\n\r\n") + "x\r\n";
    assert Serialized([item], "b") == ItemText(item, "b") + Serialized([], "b");
  }

  /** The allowed characters of a boundary, by their codes: digits, letters, hyphen and underscore. */
  lemma BoundaryCharactersExactly(c: char)
    ensures BoundaryCharValid(c) <==>
              var code := c as int;
              48 <= code <= 57 || 65 <= code <= 90 || 97 <= code <= 122 || code == 45 || code == 95
  {
  }
}
