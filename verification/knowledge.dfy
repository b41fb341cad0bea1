/** Knowledge ingestion: turning the 'pdfs' directory into the single context
    string the model is grounded on (bot.js, `getKnowledgeContext`, lines 27-63,
    and the 'ready' handler, lines 116-123). */
module Knowledge {
  import opened Results
  import opened Text

  /** What the store holds before any ingestion has assigned it. */
  const Unloaded: string := ""

  /** The instruction that opens every context the ingestion produces. */
  const Preamble: string := "Você é um assistente técnico especialista. Responda a pergunta do usuário estritamente com base no seguinte conhecimento extraído de manuais técnicos:"

  /** The context when there is no document to load. */
  const Placeholder: string := Preamble + " (Nenhum documento foi carregado)"

  /** Written after the preamble and after every extracted text. */
  const Separator: string := "\n\n"

  /** The context built from the combined extracted text: the preamble, a blank
      line and the combined text, which can be read back from it. */
  function Loaded(combined: string): (context: string)
    ensures context != Placeholder && context != Unloaded
    ensures |context| == |Preamble| + |Separator| + |combined|
    ensures context[..|Preamble|] == Preamble
    ensures context[|Preamble|..|Preamble| + |Separator|] == Separator
    ensures context[|Preamble| + |Separator|..] == combined
  {
    LoadedIsNotPlaceholder(combined);
    Preamble + Separator + combined
  }

  /** The document directory as the filesystem reports it. */
  datatype Directory =
    | Inaccessible(mkdirFailure: Option<string>)         // `fs.access` failed; then `fs.mkdir` fails or not
    | Accessible(listing: Result<seq<string>, string>)   // `fs.readdir`'s entry names, or its failure

  /** Reading one file and extracting its text, by entry name. */
  type Extractor = string -> Result<string, string>

  /** A file takes part iff its extension, lower-cased, is ".pdf"; that is, iff
      the name ends in ".pdf" in any case and has something before that dot. */
  function IsPdf(name: string): (eligible: bool)
    ensures eligible <==> |name| >= 5 && Lower(name[|name| - 4..]) == ".pdf"
  {
    IsPdfIff(name);
    Lower(ExtName(name)) == ".pdf"
  }

  /** An independent reading of the extension test: the name ends in ".pdf" in
      any case and has something before that dot. A bare ".pdf" has no extension. */
  lemma IsPdfIff(name: string)
    ensures Lower(ExtName(name)) == ".pdf" <==> |name| >= 5 && Lower(name[|name| - 4..]) == ".pdf"
  {
    if Lower(ExtName(name)) == ".pdf" {
      var ext := ExtName(name);
      assert |ext| == 4;
      assert ext == name[|name| - 4..];
    }
    if |name| >= 5 && Lower(name[|name| - 4..]) == ".pdf" {
      var tail := name[|name| - 4..];
      assert LowerChar(tail[0]) == '.' && LowerChar(tail[1]) == 'p';
      assert LowerChar(tail[2]) == 'd' && LowerChar(tail[3]) == 'f';
      assert name[|name| - 4] == '.';
      assert forall j :: |name| - 4 < j < |name| ==> name[j] == tail[j - (|name| - 4)];
      var k := LastDot(name);
      assert k == Some(|name| - 4);
    }
  }

  /** Upper-case extensions qualify. */
  lemma IsPdfUpperCase()
    ensures IsPdf("manual.PDF")
  {
    var name := "manual.PDF";
    assert name[6..] == ".PDF";
    assert Lower(".PDF") == ".pdf";
    IsPdfIff(name);
  }

  /** Only the last extension counts. */
  lemma IsPdfLastExtension()
    ensures IsPdf("a.b.pdf") && !IsPdf("notes.pdf.txt")
  {
    var name := "a.b.pdf";
    assert name[3..] == ".pdf";
    assert Lower(".pdf") == ".pdf";
    IsPdfIff(name);
    var other := "notes.pdf.txt";
    assert other[9..] == ".txt";
    assert Lower(".txt")[1] == 't';
    IsPdfIff(other);
  }

  /** A bare dotfile and a name without a dot do not qualify. */
  lemma IsPdfNeedsStem()
    ensures !IsPdf(".pdf") && !IsPdf("pdf")
  {
    IsPdfIff(".pdf");
    IsPdfIff("pdf");
  }

  /** The entries of `names` that `keep` accepts, in order. */
  function Filter(names: seq<string>, keep: string -> bool): (kept: seq<string>)
    ensures forall n :: n in kept <==> n in names && keep(n)
    ensures |names| == 1 ==> kept == (if keep(names[0]) then names else [])
    ensures |kept| <= |names|
  {
    if |names| == 0 then []
    else
      assert names == [names[0]] + names[1..];
      (if keep(names[0]) then [names[0]] else []) + Filter(names[1..], keep)
  }

  /** Filtering a listing in two parts gives the two filtered parts in order. */
  lemma {:induction false} FilterAppend(a: seq<string>, b: seq<string>, keep: string -> bool)
    ensures Filter(a + b, keep) == Filter(a, keep) + Filter(b, keep)
  {
    if |a| > 0 {
      assert (a + b)[0] == a[0] && (a + b)[1..] == a[1..] + b;
      FilterAppend(a[1..], b, keep);
    } else {
      assert a + b == b;
    }
  }

  /** The eligible entries of a listing, in listing order (line 39). */
  function PdfFiles(names: seq<string>): (pdfs: seq<string>)
    ensures forall n :: n in pdfs <==> n in names && IsPdf(n)
    ensures |names| == 1 ==> pdfs == (if IsPdf(names[0]) then names else [])
  {
    Filter(names, IsPdf)
  }

  /** The loop of lines 48-59: the text accumulated after processing `files` in
      order, where a successful file appends its text and a separator and a
      failing one appends nothing. */
  function Accumulate(files: seq<string>, extract: Extractor): (acc: string)
    ensures acc == Blocks(Extracted(files, extract))
  {
    if |files| == 0 then ""
    else
      var init, last := files[..|files| - 1], files[|files| - 1];
      var acc := Accumulate(init, extract);
      assert files == init + [last];
      ExtractedAppend(init, [last], extract);
      BlocksAppend(Extracted(init, extract), Extracted([last], extract));
      assert [last][1..] == [];
      match extract(last)
      case Ok(text) => acc + text + Separator
      case Err(_) => acc
  }

  /** The texts of the files whose extraction succeeds, in order. */
  function Extracted(files: seq<string>, extract: Extractor): seq<string> {
    if |files| == 0 then []
    else
      match extract(files[0])
      case Ok(text) => [text] + Extracted(files[1..], extract)
      case Err(_) => Extracted(files[1..], extract)
  }

  /** Each text followed by a blank line, all concatenated. */
  function Blocks(texts: seq<string>): string {
    if |texts| == 0 then "" else texts[0] + Separator + Blocks(texts[1..])
  }

  lemma {:induction false} ExtractedAppend(a: seq<string>, b: seq<string>, extract: Extractor)
    ensures Extracted(a + b, extract) == Extracted(a, extract) + Extracted(b, extract)
  {
    if |a| > 0 {
      assert (a + b)[1..] == a[1..] + b;
      ExtractedAppend(a[1..], b, extract);
    } else {
      assert a + b == b;
    }
  }

  lemma {:induction false} BlocksAppend(a: seq<string>, b: seq<string>)
    ensures Blocks(a + b) == Blocks(a) + Blocks(b)
  {
    if |a| > 0 {
      assert (a + b)[1..] == a[1..] + b;
      BlocksAppend(a[1..], b);
    } else {
      assert a + b == b;
    }
  }

  /** Processing two runs of files one after the other concatenates their texts. */
  lemma AccumulateAppend(a: seq<string>, b: seq<string>, extract: Extractor)
    ensures Accumulate(a + b, extract) == Accumulate(a, extract) + Accumulate(b, extract)
  {
    ExtractedAppend(a, b, extract);
    BlocksAppend(Extracted(a, extract), Extracted(b, extract));
  }

  /** A file whose extraction fails leaves no trace, and the files after it are
      still processed. */
  lemma SkipFailed(a: seq<string>, f: string, b: seq<string>, extract: Extractor)
    requires extract(f).Err?
    ensures Accumulate(a + [f] + b, extract) == Accumulate(a + b, extract)
  {
    AccumulateAppend(a + [f], b, extract);
    AccumulateAppend(a, [f], extract);
    AccumulateAppend(a, b, extract);
    assert [f][..0] == [];
  }

  /** A file whose extraction succeeds contributes its text and a blank line,
      between the texts of the files before it and those after it. */
  lemma KeepSucceeded(a: seq<string>, f: string, b: seq<string>, extract: Extractor)
    requires extract(f).Ok?
    ensures Accumulate(a + [f] + b, extract)
         == Accumulate(a, extract) + extract(f).value + Separator + Accumulate(b, extract)
  {
    AccumulateAppend(a + [f], b, extract);
    AccumulateAppend(a, [f], extract);
    assert [f][..0] == [];
  }

  /** When every file fails, nothing is accumulated. */
  lemma {:induction false} AllFailed(files: seq<string>, extract: Extractor)
    requires forall i :: 0 <= i < |files| ==> extract(files[i]).Err?
    ensures Accumulate(files, extract) == ""
  {
    if |files| > 0 {
      AllFailed(files[..|files| - 1], extract);
    }
  }

  /** A loaded context never equals the placeholder, even with nothing loaded. */
  lemma LoadedIsNotPlaceholder(combined: string)
    ensures Preamble + Separator + combined != Placeholder
  {
    var n := |Preamble|;
    assert (Preamble + Separator + combined)[n] == '\n';
    assert Placeholder[n] == ' ';
  }

  /** `getKnowledgeContext`: the value it assigns to the store, or the exception
      it lets escape (a failing `mkdir` or `readdir`). */
  function GetKnowledgeContext(dir: Directory, extract: Extractor): (r: Result<string, string>)
    ensures r.Err? <==> (dir.Inaccessible? && dir.mkdirFailure.Some?) || (dir.Accessible? && dir.listing.Err?)
    ensures r.Ok? ==> r.value != Unloaded
    ensures r == Ok(Placeholder) <==>
      || dir == Inaccessible(None)
      || (dir.Accessible? && dir.listing.Ok? && forall n :: n in dir.listing.value ==> !IsPdf(n))
    ensures dir.Accessible? && dir.listing.Ok? && (exists n :: n in dir.listing.value && IsPdf(n)) ==>
      r == Ok(Loaded(Blocks(Extracted(PdfFiles(dir.listing.value), extract))))
  {
    match dir
    case Inaccessible(failure) =>
      if failure.Some? then Err(failure.value) else Ok(Placeholder)
    case Accessible(Err(e)) => Err(e)
    case Accessible(Ok(names)) =>
      var pdfs := PdfFiles(names);
      if |pdfs| == 0 then Ok(Placeholder)
      else
        var combined := Accumulate(pdfs, extract);
        LoadedIsNotPlaceholder(combined);
        assert pdfs[0] in pdfs;
        Ok(Loaded(combined))
  }

  /** The 'ready' handler: the store after one ingestion. An escaping exception is
      swallowed and leaves the store as it was. */
  function OnReady(store: string, dir: Directory, extract: Extractor): (s: string)
    ensures GetKnowledgeContext(dir, extract).Ok? ==> s == GetKnowledgeContext(dir, extract).value
    ensures GetKnowledgeContext(dir, extract).Ok? ==> s != Unloaded
    ensures GetKnowledgeContext(dir, extract).Err? ==> s == store
  {
    match GetKnowledgeContext(dir, extract)
    case Ok(context) => context
    case Err(_) => store
  }

  /** The store is assigned once, after the loop: it is the old value, the
      placeholder, or the context built from every eligible file, never a
      context built from only some of them. */
  lemma NeverPartial(store: string, dir: Directory, extract: Extractor)
    ensures var s := OnReady(store, dir, extract);
      || s == store
      || s == Placeholder
      || (dir.Accessible? && dir.listing.Ok?
          && s == Loaded(Blocks(Extracted(PdfFiles(dir.listing.value), extract))))
  {
  }

  /** If every eligible file fails, the store gets the bare preamble, not the placeholder. */
  lemma AllFailedIsBarePreamble(names: seq<string>, extract: Extractor)
    requires exists n :: n in names && IsPdf(n)
    requires forall n :: n in names && IsPdf(n) ==> extract(n).Err?
    ensures GetKnowledgeContext(Accessible(Ok(names)), extract) == Ok(Preamble + Separator)
    ensures Preamble + Separator != Placeholder
  {
    var pdfs := PdfFiles(names);
    assert forall i :: 0 <= i < |pdfs| ==> pdfs[i] in pdfs;
    AllFailed(pdfs, extract);
    LoadedIsNotPlaceholder("");
    assert Loaded("") == Preamble + Separator;
  }
}
