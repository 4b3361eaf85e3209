/**
 * Book-archive metadata extraction: `ExtractMetadata`, `GetSafeFileName` and
 * `GetDaisyBookInfo` of Form1.cs. The archive is given as its list of entries, each a full
 * entry name and the text the entry reads as (None when extracting or reading that entry
 * throws); an archive that cannot be opened at all is `Unreadable`. Every exception the source
 * catches becomes the `None` result that the source returns as `null`.
 */
module Metadata {
  import opened Wrappers
  import opened Text
  import opened Paths

  /** The literal prefix searched for: `<meta name="NAME" content="`. */
  function MetaTag(metadataName: string): string
  {
    "<meta name=\"" + metadataName + "\" content=\""
  }

  /** The characters between `start` and the first quote at or after it contain no quote. */
  lemma QuoteFree(html: string, start: nat, e: nat)
    requires FirstOccurrence(html, "\"", start, e)
    ensures '"' !in html[start..e]
  {
    forall j | start <= j < e ensures html[j] != '"' {
      OccursAtChar(html, '"', j);
    }
  }

  /** `ExtractMetadata(html, metadataName)`: the trimmed text between the end of the first
      `<meta name="NAME" content="` and the next '"'; empty when either is missing. */
  function ExtractMetadata(html: string, metadataName: string): (r: string)
    ensures '"' !in r
  {
    ValueAfter(html, MetaTag(metadataName))
  }

  /** The quoted value that follows the first occurrence of `tag`, or empty without one. */
  function ValueAfter(html: string, tag: string): (r: string)
    ensures '"' !in r
  {
    var found := IndexOf(html, tag, 0);
    if found.None? then "" else QuotedValue(html, found.value + |tag|)
  }

  /** The trimmed text from `start` up to the next '"', or empty when no quote follows. */
  function QuotedValue(html: string, start: nat): (r: string)
    requires start <= |html|
    ensures '"' !in r
  {
    match IndexOf(html, "\"", start)
    case None => ""
    case Some(e) =>
      IndexOfFirst(html, "\"", start);
      QuoteFree(html, start, e);
      TrimKeepsAbsent(html[start..e], '"');
      Trim(html[start..e])
  }

  /** Without the tag the value is empty. */
  lemma ExtractMetadataAbsent(html: string, metadataName: string, tag: string)
    requires tag == MetaTag(metadataName)
    requires forall j :: !OccursAt(html, tag, j)
    ensures ExtractMetadata(html, metadataName) == ""
  {
    IndexOfFirst(html, tag, 0);
  }

  /** With the tag, first at `k`, but no closing quote after it, the value is empty. */
  lemma ExtractMetadataUnclosed(html: string, metadataName: string, tag: string, k: nat)
    requires tag == MetaTag(metadataName)
    requires FirstOccurrence(html, tag, 0, k)
    requires '"' !in html[k + |tag|..]
    ensures ExtractMetadata(html, metadataName) == ""
  {
    ValueAfterUnclosed(html, tag, k);
  }

  /** The tag-generic form of the unclosed case. */
  lemma ValueAfterUnclosed(html: string, tag: string, k: nat)
    requires FirstOccurrence(html, tag, 0, k)
    requires '"' !in html[k + |tag|..]
    ensures ValueAfter(html, tag) == ""
  {
    FirstOccurrenceUnique(html, tag, 0, k);
    ValueAfterAt(html, tag, k);
    QuotedValueUnclosed(html, k + |tag|);
  }

  /** With no quote from `start` on, the quoted value is empty. */
  lemma QuotedValueUnclosed(html: string, start: nat)
    requires start <= |html| && '"' !in html[start..]
    ensures QuotedValue(html, start) == ""
  {
    IndexOfFirst(html, "\"", start);
    var found := IndexOf(html, "\"", start);
    if found.Some? {
      OccursAtChar(html, '"', found.value);
    }
  }

  /** With the tag first at `k` and the first quote after it at `e`, the value is the
      trimmed text in between. */
  lemma ExtractMetadataFound(html: string, metadataName: string, tag: string, k: nat, e: nat)
    requires tag == MetaTag(metadataName)
    requires FirstOccurrence(html, tag, 0, k)
    requires FirstOccurrence(html, "\"", k + |tag|, e)
    ensures k + |tag| <= e <= |html| && ExtractMetadata(html, metadataName) == Trim(html[k + |tag|..e])
  {
    FirstOccurrenceUnique(html, tag, 0, k);
    ValueAfterAt(html, tag, k);
    QuotedValueAt(html, k + |tag|, e);
  }

  /** The value after the tag's first occurrence is read from the end of that occurrence. */
  lemma ValueAfterAt(html: string, tag: string, k: nat)
    requires k + |tag| <= |html| && IndexOf(html, tag, 0) == Some(k)
    ensures ValueAfter(html, tag) == QuotedValue(html, k + |tag|)
  {
  }

  /** The quoted value is the trimmed text up to the first quote at or after `start`. */
  lemma QuotedValueAt(html: string, start: nat, e: nat)
    requires FirstOccurrence(html, "\"", start, e)
    ensures start <= e < |html| && html[e] == '"' && QuotedValue(html, start) == Trim(html[start..e])
  {
    FirstOccurrenceUnique(html, "\"", start, e);
    OccursAtChar(html, '"', e);
  }

  /** A document holding `<meta name="NAME" content="VALUE"` with no earlier such tag yields
      VALUE, for any VALUE free of quotes and of surrounding white space. */
  lemma ExtractMetadataOf(prefix: string, metadataName: string, tag: string, value: string, rest: string)
    requires tag == MetaTag(metadataName)
    requires forall j :: 0 <= j < |prefix| ==> !OccursAt(prefix + tag + value + "\"" + rest, tag, j)
    requires '"' !in value
    requires value == [] || (!IsWhiteSpace(value[0]) && !IsWhiteSpace(value[|value| - 1]))
    ensures ExtractMetadata(prefix + tag + value + "\"" + rest, metadataName) == value
  {
    PiecesOf(prefix, tag, value, rest);
    ValueAtPosition(prefix + tag + value + "\"" + rest, metadataName, tag, |prefix|, value);
  }

  /** Where the pieces of `prefix + tag + value + '"' + rest` stand. */
  lemma PiecesOf(prefix: string, tag: string, value: string, rest: string)
    ensures var html := prefix + tag + value + "\"" + rest;
      var start := |prefix| + |tag|;
      && start + |value| < |html|
      && html[|prefix|..start] == tag
      && html[start..start + |value|] == value
      && html[start + |value|] == '"'
  {
  }

  /** The value read after a tag first found at `k` is the quote-free, trimmed text that
      stands between the tag and the next quote. */
  lemma ValueAtPosition(html: string, metadataName: string, tag: string, k: nat, value: string)
    requires tag == MetaTag(metadataName)
    requires k + |tag| + |value| < |html|
    requires forall j :: 0 <= j < k ==> !OccursAt(html, tag, j)
    requires html[k..k + |tag|] == tag
    requires html[k + |tag|..k + |tag| + |value|] == value
    requires html[k + |tag| + |value|] == '"'
    requires '"' !in value
    requires value == [] || (!IsWhiteSpace(value[0]) && !IsWhiteSpace(value[|value| - 1]))
    ensures ExtractMetadata(html, metadataName) == value
  {
    var start := k + |tag|;
    var e := start + |value|;
    MatchesAtSlice(html, tag, k);
    forall j | start <= j < e ensures !OccursAt(html, "\"", j) {
      OccursAtChar(html, '"', j);
      assert html[j] == value[j - start];
    }
    OccursAtChar(html, '"', e);
    ExtractMetadataFound(html, metadataName, tag, k, e);
    TrimCharacterised(value, 0, |value|);
    assert value[0..|value|] == value;
  }

  /** The search result is the first occurrence, whichever way that occurrence is known. */
  lemma FirstOccurrenceUnique(s: string, pat: string, from: nat, k: nat)
    requires FirstOccurrence(s, pat, from, k)
    ensures from <= |s| && IndexOf(s, pat, from) == Some(k)
  {
    IndexOfFirst(s, pat, from);
  }

  /** `input.Split(seps)`: the pieces between separator characters, empty ones included. */
  function Split(s: string, seps: set<char>): (parts: seq<string>)
    ensures |parts| >= 1
    ensures forall i, j :: 0 <= i < |parts| && 0 <= j < |parts[i]| ==> parts[i][j] !in seps
  {
    if s == [] then [[]]
    else
      var rest := Split(s[1..], seps);
      if s[0] in seps then [[]] + rest
      else [[s[0]] + rest[0]] + rest[1..]
  }

  /** `string.Join(sep, parts)`. */
  function Join(sep: string, parts: seq<string>): string
  {
    if |parts| == 0 then []
    else if |parts| == 1 then parts[0]
    else parts[0] + sep + Join(sep, parts[1..])
  }

  /** The reference view of sanitising: each invalid character replaced one-for-one by '_'. */
  function MapInvalid(s: string, invalid: set<char>): (r: string)
    ensures |r| == |s|
    ensures forall i :: 0 <= i < |s| ==> r[i] == (if s[i] in invalid then '_' else s[i])
  {
    seq(|s|, i requires 0 <= i < |s| => if s[i] in invalid then '_' else s[i])
  }

  /** Splitting at invalid characters and joining with "_" replaces each of them by '_'. */
  lemma {:induction false} JoinSplit(s: string, invalid: set<char>)
    ensures Join("_", Split(s, invalid)) == MapInvalid(s, invalid)
    decreases |s|
  {
    if s != [] {
      JoinSplit(s[1..], invalid);
      MapInvalidCons(s, invalid);
      var rest := Split(s[1..], invalid);
      if s[0] in invalid {
        JoinEmptyFirst(rest);
      } else {
        JoinExtendFirst(s[0], rest);
      }
    }
  }

  lemma MapInvalidCons(s: string, invalid: set<char>)
    requires s != []
    ensures MapInvalid(s, invalid) == [if s[0] in invalid then '_' else s[0]] + MapInvalid(s[1..], invalid)
  {
  }

  /** An empty first piece contributes only the separator. */
  lemma JoinEmptyFirst(rest: seq<string>)
    requires |rest| >= 1
    ensures Join("_", [[]] + rest) == "_" + Join("_", rest)
  {
    assert ([[]] + rest)[1..] == rest;
  }

  /** Prefixing the first piece with `c` prefixes the joined text with `c`. */
  lemma JoinExtendFirst(c: char, rest: seq<string>)
    requires |rest| >= 1
    ensures Join("_", [[c] + rest[0]] + rest[1..]) == [c] + Join("_", rest)
  {
    JoinPrefixFirst(c, rest[0], rest[1..]);
    assert [rest[0]] + rest[1..] == rest;
  }

  lemma JoinPrefixFirst(c: char, x: string, more: seq<string>)
    ensures Join("_", [[c] + x] + more) == [c] + Join("_", [x] + more)
  {
    if more == [] {
      assert [[c] + x] + more == [[c] + x];
      assert [x] + more == [x];
    } else {
      JoinCons([c] + x, more);
      JoinCons(x, more);
      var tail := Join("_", more);
      assert ([c] + x) + "_" + tail == [c] + (x + "_" + tail);
    }
  }

  /** Joining a piece in front of at least one more piece puts the separator between them. */
  lemma JoinCons(x: string, rest: seq<string>)
    requires |rest| >= 1
    ensures Join("_", [x] + rest) == x + "_" + Join("_", rest)
  {
    assert ([x] + rest)[1..] == rest;
  }

  /** `GetSafeFileName(input)`: invalid characters become '_', and the result is cut to
      50 characters. The result is the first min(50, |input|) characters of the mapped input. */
  function GetSafeFileName(input: string, invalid: set<char>): (r: string)
    ensures |r| <= 50
    ensures r == MapInvalid(input, invalid)[..if |input| <= 50 then |input| else 50]
  {
    var safeName := Join("_", Split(input, invalid));
    JoinSplit(input, invalid);
    if |safeName| > 50 then safeName[..50] else safeName
  }

  /** The sanitised name holds no invalid character, as long as '_' is not one. */
  lemma SafeFileNameValid(input: string, invalid: set<char>)
    requires '_' !in invalid
    ensures forall i :: 0 <= i < |GetSafeFileName(input, invalid)| ==> GetSafeFileName(input, invalid)[i] !in invalid
  {
    var r := GetSafeFileName(input, invalid);
    forall i | 0 <= i < |r| ensures r[i] !in invalid {
      assert r[i] == MapInvalid(input, invalid)[i];
    }
  }

  /** A name of at most 50 valid characters is kept as it is. */
  lemma SafeFileNameKeepsValid(input: string, invalid: set<char>)
    requires |input| <= 50
    requires forall i :: 0 <= i < |input| ==> input[i] !in invalid
    ensures GetSafeFileName(input, invalid) == input
  {
    assert MapInvalid(input, invalid)[..|input|] == input;
  }

  /** Sanitising twice is sanitising once. */
  lemma SafeFileNameIdempotent(input: string, invalid: set<char>)
    requires '_' !in invalid
    ensures GetSafeFileName(GetSafeFileName(input, invalid), invalid) == GetSafeFileName(input, invalid)
  {
    SafeFileNameValid(input, invalid);
    SafeFileNameKeepsValid(GetSafeFileName(input, invalid), invalid);
  }

  /** `Path.GetInvalidFileNameChars()` on Windows: '"', '<', '>', '|', the control characters
      U+0000..U+001F, ':', '*', '?', '\\' and '/'. */
  const InvalidFileNameChars: set<char> :=
    {'"', '<', '>', '|', ':', '*', '?', '\\', '/'} + set n: nat | n < 32 :: n as char

  /** One archive entry: its full name inside the archive and, when extracting and reading it
      succeeds, its text. */
  datatype Entry = Entry(fullName: string, text: Option<string>)

  /** An opened archive's entries, or an archive `ZipFile.OpenRead` rejects. */
  datatype Archive = Unreadable | Zip(entries: seq<Entry>)

  /** `DaisyBookInfo` as the scan creates it. */
  datatype BookInfo = BookInfo(zipPath: string, title: string, author: string, folderName: string)

  /** The navigation control document whose presence makes an archive a DAISY 2.02 book. */
  const MarkerName: string := "ncc.html"

  /** The author shown when the book names none. */
  const UnknownAuthor: string := "Tuntematon"

  /** `e.Name.Equals("ncc.html", StringComparison.OrdinalIgnoreCase)`, with `Name` the part
      of the entry's full name after its last separator. */
  predicate IsMarker(e: Entry)
  {
    EqualsIgnoreCase(FileName(e.fullName), MarkerName)
  }

  /** `k` is the first marker entry. */
  predicate FirstMarker(entries: seq<Entry>, k: nat)
  {
    k < |entries| && IsMarker(entries[k]) && forall j :: 0 <= j < k ==> !IsMarker(entries[j])
  }

  /** `archive.Entries.FirstOrDefault(IsMarker)` from position `i` on, as an index. */
  function FindMarker(entries: seq<Entry>, i: nat): (r: Option<nat>)
    requires i <= |entries|
    ensures r.Some? ==> i <= r.value < |entries| && IsMarker(entries[r.value])
    ensures r.Some? ==> forall j :: i <= j < r.value ==> !IsMarker(entries[j])
    ensures r.None? ==> forall j :: i <= j < |entries| ==> !IsMarker(entries[j])
    decreases |entries| - i
  {
    if i == |entries| then None
    else if IsMarker(entries[i]) then Some(i)
    else FindMarker(entries, i + 1)
  }

  /** The descriptor built from a readable marker document: the document's dc:title, or the
      archive's base name when that is empty; its dc:creator, or the placeholder when that is
      empty; and the sanitised title as folder name. */
  function DescribeBook(zipPath: string, html: string, invalid: set<char>): (b: BookInfo)
    ensures b.zipPath == zipPath
    ensures var t := ExtractMetadata(html, "dc:title");
      b.title == (if t == "" then FileNameWithoutExtension(zipPath) else t)
    ensures var a := ExtractMetadata(html, "dc:creator");
      b.author == (if a == "" then UnknownAuthor else a)
    ensures b.author != [] && '"' !in b.author
    ensures b.folderName == GetSafeFileName(b.title, invalid)
  {
    var t := ExtractMetadata(html, "dc:title");
    var a := ExtractMetadata(html, "dc:creator");
    var title := if t == "" then FileNameWithoutExtension(zipPath) else t;
    var author := if a == "" then UnknownAuthor else a;
    assert '"' !in author by {
      if a == "" { assert forall i :: 0 <= i < |UnknownAuthor| ==> UnknownAuthor[i] != '"'; }
    }
    BookInfo(zipPath, title, author, GetSafeFileName(title, invalid))
  }

  /** `GetDaisyBookInfo(zipFilePath)`: None for an unreadable archive, an archive without a
      marker entry, or a marker entry that cannot be read; otherwise the book its first marker
      document describes. */
  function GetDaisyBookInfo(zipPath: string, archive: Archive, invalid: set<char>): (r: Option<BookInfo>)
    ensures archive.Unreadable? ==> r.None?
    ensures archive.Zip? && (forall j :: 0 <= j < |archive.entries| ==> !IsMarker(archive.entries[j])) ==> r.None?
    ensures r.Some? ==> archive.Zip? && exists j :: 0 <= j < |archive.entries| && IsMarker(archive.entries[j])
    ensures r.Some? ==> r.value.zipPath == zipPath && r.value.author != [] && '"' !in r.value.author
    ensures r.Some? ==> r.value.folderName == GetSafeFileName(r.value.title, invalid)
  {
    match archive
    case Unreadable => None
    case Zip(entries) =>
      match FindMarker(entries, 0)
      case None => None
      case Some(k) =>
        match entries[k].text
        case None => None
        case Some(html) => Some(DescribeBook(zipPath, html, invalid))
  }

  /** The first marker entry decides: unreadable, no book; readable, the book its document
      describes. */
  lemma BookFromMarker(zipPath: string, entries: seq<Entry>, k: nat, invalid: set<char>)
    requires FirstMarker(entries, k)
    ensures entries[k].text.None? ==> GetDaisyBookInfo(zipPath, Zip(entries), invalid).None?
    ensures entries[k].text.Some? ==>
      GetDaisyBookInfo(zipPath, Zip(entries), invalid) == Some(DescribeBook(zipPath, entries[k].text.value, invalid))
  {
    var f := FindMarker(entries, 0);
    assert f == Some(k);
  }

  /** A descriptor's folder name respects the file-system rules: at most 50 characters and no
      invalid character. */
  lemma BookFolderNameValid(zipPath: string, archive: Archive, invalid: set<char>)
    requires '_' !in invalid
    requires GetDaisyBookInfo(zipPath, archive, invalid).Some?
    ensures var b := GetDaisyBookInfo(zipPath, archive, invalid).value;
      |b.folderName| <= 50 && forall i :: 0 <= i < |b.folderName| ==> b.folderName[i] !in invalid
  {
    SafeFileNameValid(GetDaisyBookInfo(zipPath, archive, invalid).value.title, invalid);
  }

  /** A marker document naming the title "Voices" and the creator "A. Author". */
  function VoicesHtml(): string
  {
    MetaTag("dc:title") + "Voices\">" + MetaTag("dc:creator") + "A. Author\">"
  }

  /** Its title is read as "Voices". */
  lemma VoicesTitle()
    ensures ExtractMetadata(VoicesHtml(), "dc:title") == "Voices"
  {
    var ct := MetaTag("dc:creator");
    assert VoicesHtml() == [] + MetaTag("dc:title") + "Voices" + "\"" + (">" + ct + "A. Author\">");
    ExtractMetadataOf([], "dc:title", MetaTag("dc:title"), "Voices", ">" + ct + "A. Author\">");
  }

  /** A tag starting with '<' cannot begin inside a prefix whose only '<' is its first
      character, when the prefix and the tag differ at position `d`. */
  lemma TagNotInPrefix(first: string, tag: string, tail: string, d: nat)
    requires |tag| > 0 && tag[0] == '<'
    requires forall i :: 1 <= i < |first| ==> first[i] != '<'
    requires d < |first| && d < |tag| && first[d] != tag[d]
    ensures forall j :: 0 <= j < |first| ==> !OccursAt(first + tail, tag, j)
  {
    var html := first + tail;
    forall j | 0 <= j < |first| ensures !OccursAt(html, tag, j) {
      if j == 0 {
        OccursAtIndex(html, tag, 0, d);
        assert html[d] == first[d];
      } else {
        assert html[j] == first[j];
      }
    }
  }

  /** Its creator is read as "A. Author". */
  lemma VoicesCreator()
    ensures ExtractMetadata(VoicesHtml(), "dc:creator") == "A. Author"
  {
    var ct := MetaTag("dc:creator");
    var first := MetaTag("dc:title") + "Voices\">";
    var tail := ct + "A. Author" + "\"" + ">";
    assert forall i :: 1 <= i < |first| ==> first[i] != '<';
    assert first[15] != ct[15];
    TagNotInPrefix(first, ct, tail, 15);
    assert first + tail == first + ct + "A. Author" + "\"" + ">" == VoicesHtml();
    ExtractMetadataOf(first, "dc:creator", ct, "A. Author", ">");
  }

  /** An entry `book1/NCC.HTML` is a marker entry: the comparison ignores case and the directory. */
  lemma VoicesMarker()
    ensures IsMarker(Entry("book1/NCC.HTML", Some(VoicesHtml())))
  {
    FileNameOfAppend("book1/", "NCC.HTML");
    assert "book1/" + "NCC.HTML" == "book1/NCC.HTML";
    UpperNameIsMarkerName();
  }

  lemma UpperNameIsMarkerName()
    ensures EqualsIgnoreCase("NCC.HTML", MarkerName)
  {
    forall i | 0 <= i < 8 ensures UpperAscii("NCC.HTML"[i]) == UpperAscii(MarkerName[i]) {
      if i == 3 { assert MarkerName[i] == '.'; } else { assert 'a' <= MarkerName[i] <= 'z'; }
    }
    EqualsIgnoreCaseIndexwise("NCC.HTML", MarkerName);
  }
  /** "Voices" is a valid folder name as it stands. */
  lemma VoicesSafeName()
    ensures GetSafeFileName("Voices", InvalidFileNameChars) == "Voices"
  {
    forall i | 0 <= i < |"Voices"| ensures "Voices"[i] !in InvalidFileNameChars {
      assert 'A' <= "Voices"[i];
    }
    SafeFileNameKeepsValid("Voices", InvalidFileNameChars);
  }

  /** "book1.zip" holding that document gives the descriptor titled "Voices" by "A. Author",
      with "Voices" as its folder name. */
  lemma VoicesBook()
    ensures GetDaisyBookInfo("book1.zip", Zip([Entry("book1/NCC.HTML", Some(VoicesHtml()))]), InvalidFileNameChars)
      == Some(BookInfo("book1.zip", "Voices", "A. Author", "Voices"))
  {
    VoicesTitle();
    VoicesCreator();
    VoicesMarker();
    VoicesSafeName();
    BookFromMarker("book1.zip", [Entry("book1/NCC.HTML", Some(VoicesHtml()))], 0, InvalidFileNameChars);
  }

  /** The base name of an archive called ".zip" is empty. */
  lemma DotZipBaseName()
    ensures FileNameWithoutExtension("Downloads\\.zip") == ""
  {
    FileNameOfAppend("Downloads\\", ".zip");
    assert "Downloads\\" + ".zip" == "Downloads\\.zip";
    assert LastDot(".zip", 4) == Some(0);
  }

  /** An entry named exactly "ncc.html" is a marker entry. */
  lemma MarkerNameIsMarker(text: Option<string>)
    ensures IsMarker(Entry(MarkerName, text))
  {
    FileNameOfAppend([], MarkerName);
    assert [] + MarkerName == MarkerName;
  }

  /** The folder name can be empty: an archive named ".zip" whose marker document has no title
      falls back to the empty base name. */
  lemma EmptyFolderName()
    ensures GetDaisyBookInfo("Downloads\\.zip", Zip([Entry("ncc.html", Some(""))]), InvalidFileNameChars)
      == Some(BookInfo("Downloads\\.zip", "", UnknownAuthor, ""))
  {
    DotZipBaseName();
    ExtractMetadataAbsent("", "dc:title", MetaTag("dc:title"));
    ExtractMetadataAbsent("", "dc:creator", MetaTag("dc:creator"));
    MarkerNameIsMarker(Some(""));
    BookFromMarker("Downloads\\.zip", [Entry("ncc.html", Some(""))], 0, InvalidFileNameChars);
  }
}
