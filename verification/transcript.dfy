/** One run of the app on an uploaded press-conference PDF (main.py lines
    19-75): name the output after the date in the file name, extract the
    text of the pages after the cover, have the language model rewrite it,
    and lay the rewritten text out on PDF pages.

    The language model is a parameter `ask` from the prompt to the reply.
    The model name, the system message and the temperature are fixed
    arguments of that one call, so `ask` stands for the call made with
    them. */
module Transcript {
  import opened Results
  import opened Strings
  import opened FilenameDate
  import opened PageText
  import opened Pagination

  /** Why a run stops early: the file name carries no date. */
  datatype Failure = MissingDate

  /** What a completed run produced: the download's file name, the prompt
      sent for rewriting, and the calls made on the PDF canvas. */
  datatype Output = Output(fileName: string, prompt: string, calls: seq<Event>)

  /** The fixed instructions in front of the extracted text. */
  const PromptHead: string :=
    "\n以下の東京都知事会見録のテキストを、レイアウトと読みやすさを整えてください。\n"
    + "- インデント、フォント、行間を整えてください。\n"
    + "- ＜見出し＞形式でセクションを明確にしてください。\n"
    + "- ダブルスペースや読点の不自然な箇所を修正してください。\n"
    + "- 意味を変えずに、言い直しや重複した表現を省いてください。\n"
    + "\n---\n"

  /** What the triple-quoted prompt keeps after the text: the newline and
      the indentation before its closing quotes. */
  const PromptTail: string := "\n    "

  /** The user message: the instructions, then the text, then the tail. */
  function BuildPrompt(text: string): (r: string)
    ensures |r| == |PromptHead| + |text| + |PromptTail|
  {
    PromptHead + text + PromptTail
  }

  /** The text a prompt carries, when it has the shape of one. */
  function PromptText(prompt: string): (r: Option<string>)
    ensures r.Some? ==> |r.value| + |PromptHead| + |PromptTail| == |prompt|
  {
    var h, t := |PromptHead|, |PromptTail|;
    if |prompt| >= h + t && prompt[..h] == PromptHead && prompt[|prompt| - t..] == PromptTail then
      Some(prompt[h..|prompt| - t])
    else
      None
  }

  /** The prompt hands over the extracted text whole: it can be read back
      from the prompt, whatever it contains. */
  lemma PromptCarriesText(text: string)
    ensures PromptText(BuildPrompt(text)) == Some(text)
  {
    var p := BuildPrompt(text);
    var h := |PromptHead|;
    assert p[..h] == PromptHead;
    assert p[|p| - |PromptTail|..] == PromptTail;
    assert p[h..|p| - |PromptTail|] == text;
  }

  /** Different texts give different prompts. */
  lemma BuildPromptInjective(a: string, b: string)
    requires BuildPrompt(a) == BuildPrompt(b)
    ensures a == b
  {
    PromptCarriesText(a);
    PromptCarriesText(b);
  }

  /** A run of the app. `name` is the uploaded file's name, `pages` the
      text of each page (the empty string for a page without text), `ask`
      the language model and `height` the page height in points.

      Without a date in the name the run stops before anything else
      happens. Otherwise the output is named after the first eight-digit
      run of the name, the prompt carries the text of the pages after the
      cover, and every newline-separated line of the reply is drawn
      stripped, in order, once, within the margins and paginated as
      `RenderShape` and `RenderPages` describe: the first line at the top
      of page one, the last call a line. By `RenderUnique` these facts fix
      the calls completely. */
  function Run(name: string, pages: seq<string>, ask: string -> string, height: int)
    : (r: Result<Output, Failure>)
    requires height >= 2 * Margin
    ensures r.Err? <==> !HasDateDigits(name)
    ensures r.Ok? ==> OutputFileName(name) == Some(r.value.fileName)
    ensures r.Ok? ==> PromptText(r.value.prompt) == Some(ExtractText(pages))
    ensures r.Ok? ==>
      var lines := Split(ask(r.value.prompt), '\n');
      && DrawnTexts(r.value.calls) == StripAll(lines)
      && WithinMargins(r.value.calls, height)
      && Chained(r.value.calls, height)
      && PageCounts(r.value.calls) == FullPages(|lines|, LinesPerPage(height))
      && |r.value.calls| > 0
      && r.value.calls[0] == Draw(Top(height), Strip(lines[0]))
      && r.value.calls[|r.value.calls| - 1].Draw?
  {
    match OutputFileName(name)
    case None => Err(MissingDate)
    case Some(fileName) =>
      var prompt := BuildPrompt(ExtractText(pages));
      var lines := Split(ask(prompt), '\n');
      PromptCarriesText(ExtractText(pages));
      RenderDrawsEveryLine(lines, height);
      RenderShape(lines, height);
      RenderPages(lines, height);
      Ok(Output(fileName, prompt, Render(lines, height)))
  }
}
