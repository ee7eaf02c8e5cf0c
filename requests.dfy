/**
 * What the two submission endpoints do with a request before any job
 * exists: the file-type check, the query clean-up, the upload's path,
 * and the HTTP errors and response bodies of the service.
 */
module Requests {
  import opened Records

  /**
   * The query used when the form leaves it blank. The value is the single
   * literal of the handlers, written in two pieces so that proofs can read
   * its first character.
   */
  const DEFAULT_QUERY: string := "Analyze" + " this financial document for investment insights"

  /** The only accepted extension, compared after lower-casing the name. */
  const PDF_SUFFIX: string := ".pdf"

  /** An HTTP error: status code and `detail` text. */
  datatype ApiError = HttpError(code: nat, detail: string)

  const UNSUPPORTED_FILE := HttpError(400, "Only PDF files are supported.")
  const QUEUE_UNAVAILABLE :=
    HttpError(503, "Queue worker unavailable. Ensure Redis is running and Celery is installed.")
  /** What the framework answers for an exception the handler does not catch. */
  const UNHANDLED := HttpError(500, "Internal Server Error")

  function ProcessingError(message: string): ApiError
  {
    HttpError(500, "Error processing document: " + message)
  }

  /** The body of a successful synchronous analysis (its `status` is always "success"). */
  datatype SyncResponse = SyncResponse(
    taskId: Id, query: string, analysis: string, fileProcessed: string, durationSeconds: nat)

  /** The body of an accepted asynchronous submission (its `status` is always "queued"). */
  datatype QueuedResponse = QueuedResponse(taskId: Id, message: string, statusUrl: string)

  /** ASCII upper-case letters are lowered; every other character is kept. */
  function LowerChar(ch: char): char
  {
    if 'A' <= ch <= 'Z' then (ch as int + 32) as char else ch
  }

  function Lower(s: string): string
  {
    seq(|s|, i requires 0 <= i < |s| => LowerChar(s[i]))
  }

  /** `filename.lower().endswith(".pdf")` */
  predicate IsPdfName(filename: string)
  {
    |filename| >= |PDF_SUFFIX| && Lower(filename)[|filename| - |PDF_SUFFIX|..] == PDF_SUFFIX
  }

  /** A name is accepted exactly when its last four characters spell ".pdf" in any case. */
  lemma PdfByExtension(stem: string, ext: string)
    requires |ext| == |PDF_SUFFIX|
    ensures IsPdfName(stem + ext) <==> Lower(ext) == PDF_SUFFIX
  {
    var name := stem + ext;
    assert Lower(name)[|name| - 4..] == Lower(ext);
  }

  /** Names shorter than the suffix are never accepted. */
  lemma ShortNameRejected(filename: string)
    requires |filename| < |PDF_SUFFIX|
    ensures !IsPdfName(filename)
  {
  }

  /** The check ignores case: lowering the name first does not change the verdict. */
  lemma PdfCheckIgnoresCase(filename: string)
    ensures IsPdfName(Lower(filename)) <==> IsPdfName(filename)
  {
    assert Lower(Lower(filename)) == Lower(filename);
  }

  /** The characters Python's `str.strip()` removes (those for which `isspace()` holds). */
  predicate IsSpace(ch: char)
  {
    || ch == ' ' || '\t' <= ch <= '\r' || '\U{1c}' <= ch <= '\U{1f}'
    || ch == '\U{85}' || ch == '\U{a0}' || ch == '\U{1680}'
    || '\U{2000}' <= ch <= '\U{200a}' || ch == '\U{2028}' || ch == '\U{2029}'
    || ch == '\U{202f}' || ch == '\U{205f}' || ch == '\U{3000}'
  }

  predicate Blank(s: string)
  {
    forall i :: 0 <= i < |s| ==> IsSpace(s[i])
  }

  /** s without its leading whitespace. */
  function TrimStart(s: string): string
    decreases |s|
  {
    if |s| > 0 && IsSpace(s[0]) then TrimStart(s[1..]) else s
  }

  /** s without its trailing whitespace. */
  function TrimEnd(s: string): string
    decreases |s|
  {
    if |s| > 0 && IsSpace(s[|s| - 1]) then TrimEnd(s[..|s| - 1]) else s
  }

  /** TrimStart removes a blank prefix and stops at the first non-whitespace character. */
  lemma {:induction false} TrimStartMeaning(s: string)
    ensures |TrimStart(s)| <= |s| && TrimStart(s) == s[|s| - |TrimStart(s)|..]
    ensures TrimStart(s) == [] || !IsSpace(TrimStart(s)[0])
    ensures Blank(s[..|s| - |TrimStart(s)|])
    decreases |s|
  {
    if |s| > 0 && IsSpace(s[0]) {
      var r := TrimStart(s[1..]);
      TrimStartMeaning(s[1..]);
      assert s[..|s| - |r|] == [s[0]] + s[1..][..|s[1..]| - |r|];
    }
  }

  /** TrimEnd removes a blank suffix and stops at the last non-whitespace character. */
  lemma {:induction false} TrimEndMeaning(s: string)
    ensures |TrimEnd(s)| <= |s| && TrimEnd(s) == s[..|TrimEnd(s)|]
    ensures TrimEnd(s) == [] || !IsSpace(TrimEnd(s)[|TrimEnd(s)| - 1])
    ensures Blank(s[|TrimEnd(s)|..])
    decreases |s|
  {
    if |s| > 0 && IsSpace(s[|s| - 1]) {
      var r := TrimEnd(s[..|s| - 1]);
      TrimEndMeaning(s[..|s| - 1]);
      assert s[|r|..] == s[..|s| - 1][|r|..] + [s[|s| - 1]];
    }
  }

  /** `s.strip()` */
  function Strip(s: string): string
  {
    TrimEnd(TrimStart(s))
  }

  /**
   * Strip keeps a contiguous middle part of s that neither starts nor ends
   * with whitespace, and removes only whitespace around it.
   */
  lemma StripIsTrimmedMiddle(s: string)
    ensures exists lo, hi :: 0 <= lo <= hi <= |s| && Strip(s) == s[lo..hi]
                          && Blank(s[..lo]) && Blank(s[hi..])
    ensures Strip(s) == [] || (!IsSpace(Strip(s)[0]) && !IsSpace(Strip(s)[|Strip(s)| - 1]))
  {
    var t := TrimStart(s);
    var r := TrimEnd(t);
    TrimStartMeaning(s);
    TrimEndMeaning(t);
    var lo := |s| - |t|;
    var hi := lo + |r|;
    assert r == s[lo..hi];
    assert s[hi..] == t[|r|..];
  }

  /** A string strips to nothing exactly when it is all whitespace. */
  lemma StripEmptyIffBlank(s: string)
    ensures Strip(s) == "" <==> Blank(s)
  {
    var t := TrimStart(s);
    TrimStartMeaning(s);
    TrimEndMeaning(t);
    assert t != [] ==> t[0] == s[|s| - |t|];
    if Strip(s) == "" {
      assert t[0..] == t;
      assert s[..|s|] == s;
    }
  }

  /** Stripping a stripped string changes nothing. */
  lemma StripIdempotent(s: string)
    ensures Strip(Strip(s)) == Strip(s)
  {
    var t := TrimStart(s);
    var r := TrimEnd(t);
    TrimStartMeaning(s);
    TrimEndMeaning(t);
    assert r != [] ==> r[0] == t[0];
    TrimEndMeaning(r);
  }

  /** A string that neither starts nor ends with whitespace is its own strip. */
  lemma StripUnpadded(s: string)
    requires s != [] && !IsSpace(s[0]) && !IsSpace(s[|s| - 1])
    ensures Strip(s) == s
  {
    assert TrimStart(s) == s;
    TrimEndMeaning(s);
  }

  /** The default prompt is already stripped. */
  lemma DefaultQueryStripped()
    ensures Strip(DEFAULT_QUERY) == DEFAULT_QUERY
  {
    assert DEFAULT_QUERY[0] == 'A' && DEFAULT_QUERY[|DEFAULT_QUERY| - 1] == 's';
    StripUnpadded(DEFAULT_QUERY);
  }

  /** The query as the handlers store it: blank becomes the default prompt, then it is stripped. */
  function NormaliseQuery(query: string): string
  {
    Strip(if query == "" || Strip(query) == "" then DEFAULT_QUERY else query)
  }

  /**
   * The stored query is never empty and always stripped; a blank query
   * becomes the default prompt and any other query is only stripped.
   */
  lemma NormaliseQueryMeaning(query: string)
    ensures NormaliseQuery(query) != "" && Strip(NormaliseQuery(query)) == NormaliseQuery(query)
    ensures Blank(query) ==> NormaliseQuery(query) == DEFAULT_QUERY
    ensures !Blank(query) ==> NormaliseQuery(query) == Strip(query)
  {
    var chosen := if query == "" || Strip(query) == "" then DEFAULT_QUERY else query;
    var q := NormaliseQuery(query);
    assert q == Strip(chosen);
    StripEmptyIffBlank(query);
    if Blank(query) {
      DefaultQueryStripped();
      assert q == DEFAULT_QUERY;
    } else {
      assert q == Strip(query);
    }
    StripEmptyIffBlank(chosen);
    StripIdempotent(chosen);
  }

  /** `f"data/financial_document_{task_id}.pdf"`: where the upload is written. */
  function UploadPath(taskId: Id): string
  {
    "data/financial_document_" + taskId + ".pdf"
  }

  /** Different jobs never share an upload file. */
  lemma UploadPathInjective(a: Id, b: Id)
    ensures UploadPath(a) == UploadPath(b) <==> a == b
  {
    if UploadPath(a) == UploadPath(b) {
      var n := |"data/financial_document_"|;
      assert |a| == |b|;
      assert a == UploadPath(a)[n..n + |a|];
      assert b == UploadPath(b)[n..n + |b|];
    }
  }

  /** Where clients poll an asynchronous job. */
  function StatusUrl(taskId: Id): string
  {
    "/status/" + taskId
  }
}
