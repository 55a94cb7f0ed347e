/**
 The final-pass recognition sidecar (mlx). Two pieces of its logic are
 modelled here:

 - `_ensure_py39_compat`, run once at start-up: on Python older than 3.10 it
   finds the installed `mlx_audio/dsp.py` in the first site-packages
   directory that has one and, unless the file already has it, inserts
   `from __future__ import annotations` at the top or, when line 0 starts
   with `"""`, after the next line that starts with `"""` (the intended end
   of the module docstring), then rewrites the file. A one-line docstring
   defeats that search; the corrected placement is modelled beside the
   one the code computes.
 - the text handling of `POST /v1/asr/transcribe`: strip the model's text,
   fall back to the stripped segment texts joined by spaces, and answer ""
   for audio the model rejects as too short.

 Files are a map from path to text; the model call is an input outcome.
 */
module AsrMlx {
  import opened Common

  /** The line the patch inserts, which also serves as its "already patched" marker. */
  const FutureImport: string := "from __future__ import annotations"
  /** A triple double quote, which opens and closes a docstring. */
  const DocQuote: string := "\"\"\""

  function Min(a: nat, b: nat): nat {
    if a <= b then a else b
  }

  // ---------------------------------------------------------------------------
  // Lines of a text: `str.splitlines` and `"\n".join(parts) + "\n"`

  predicate NoNewline(line: string) {
    '\n' !in line
  }

  /** Index of the first "\n" in `text`, or `|text|` if there is none. */
  function LineEnd(text: string): (i: nat)
    ensures i <= |text|
    ensures i < |text| ==> text[i] == '\n'
    ensures NoNewline(text[..i])
    decreases |text|
  {
    if text == [] || text[0] == '\n' then 0
    else
      var i := 1 + LineEnd(text[1..]);
      assert text[..i] == [text[0]] + text[1..][..i - 1];
      i
  }

  lemma {:induction false} LineEndAfter(line: string, rest: string)
    requires NoNewline(line)
    ensures LineEnd(line + "\n" + rest) == |line|
    decreases |line|
  {
    if line != [] {
      assert (line + "\n" + rest)[1..] == line[1..] + "\n" + rest;
      LineEndAfter(line[1..], rest);
    }
  }

  /**
   `text.splitlines()` for text whose only line break is "\n": the pieces
   between the breaks, without a last empty piece after a final "\n".
   */
  function SplitLines(text: string): (lines: seq<string>)
    ensures AllNoNewline(lines)
    ensures text == [] <==> lines == []
    ensures JoinWith("\n", lines) + FinalBreak(text) == text
    decreases |text|
  {
    if text == [] then []
    else
      var i := LineEnd(text);
      if i == |text| then
        assert text[..i] == text;
        LastLine(text);
        [text]
      else
        var tail := SplitLines(text[i + 1..]);
        LineThenRest(text, i, tail);
        [text[..i]] + tail
  }

  /** A non-empty text without a line break is one line and has no final break. */
  lemma LastLine(text: string)
    requires text != [] && NoNewline(text)
    ensures AllNoNewline([text]) && JoinWith("\n", [text]) + FinalBreak(text) == text
  {
    assert text[|text| - 1] in text;
  }

  /**
   A text split at its first break: its first line followed by the lines of
   the rest are single lines, and they join back to the text.
   */
  lemma LineThenRest(text: string, i: nat, tail: seq<string>)
    requires i < |text| && text[i] == '\n' && NoNewline(text[..i])
    requires AllNoNewline(tail) && (text[i + 1..] == [] <==> tail == [])
    requires JoinWith("\n", tail) + FinalBreak(text[i + 1..]) == text[i + 1..]
    ensures AllNoNewline([text[..i]] + tail)
    ensures JoinWith("\n", [text[..i]] + tail) + FinalBreak(text) == text
  {
    var rest := text[i + 1..];
    AllNoNewlineConcat([text[..i]], tail);
    assert text == text[..i] + "\n" + rest;
    if rest == [] {
      assert [text[..i]] + tail == [text[..i]];
      assert FinalBreak(text) == "\n";
    } else {
      JoinLineStep(text[..i], tail, rest);
    }
  }

  /** "\n" when `text` ends in a line break, "" otherwise: what `splitlines` drops at the end. */
  function FinalBreak(text: string): string {
    if text != [] && text[|text| - 1] == '\n' then "\n" else ""
  }

  /** One more line in front: the joined text gains that line and a break, and the final break is kept. */
  lemma JoinLineStep(line: string, tail: seq<string>, rest: string)
    requires tail != [] && rest != []
    requires JoinWith("\n", tail) + FinalBreak(rest) == rest
    ensures JoinWith("\n", [line] + tail) + FinalBreak(line + "\n" + rest) == line + "\n" + rest
  {
    JoinWithCons("\n", line, tail);
    var text := line + "\n" + rest;
    assert text[|text| - 1] == rest[|rest| - 1];
    assert FinalBreak(text) == FinalBreak(rest);
  }

  predicate AllNoNewline(lines: seq<string>) {
    forall k :: 0 <= k < |lines| ==> NoNewline(lines[k])
  }

  lemma AllNoNewlineConcat(a: seq<string>, b: seq<string>)
    requires AllNoNewline(a) && AllNoNewline(b)
    ensures AllNoNewline(a + b)
  {
    forall k | 0 <= k < |a + b| ensures NoNewline((a + b)[k]) {
      if k < |a| { assert (a + b)[k] == a[k]; } else { assert (a + b)[k] == b[k - |a|]; }
    }
  }

  lemma AllNoNewlineSlice(lines: seq<string>, i: nat, j: nat)
    requires AllNoNewline(lines) && i <= j <= |lines|
    ensures AllNoNewline(lines[i..j])
  {
    forall k | 0 <= k < j - i ensures NoNewline(lines[i..j][k]) {
      assert lines[i..j][k] == lines[i + k];
    }
  }

  /** What `dsp_path.write_text("\n".join(parts) + "\n")` writes. */
  function FileText(lines: seq<string>): (text: string)
    ensures |text| > 0 && text[|text| - 1] == '\n'
  {
    JoinWith("\n", lines) + "\n"
  }

  /** A line and a break in front of a text add that line in front of the text's lines. */
  lemma SplitFirstLine(line: string, rest: string)
    requires NoNewline(line)
    ensures SplitLines(line + "\n" + rest) == [line] + SplitLines(rest)
  {
    var text := line + "\n" + rest;
    LineEndAfter(line, rest);
    assert text[..|line|] == line;
    assert text[|line| + 1..] == rest;
  }

  /** Writing one more line in front writes that line and a break in front. */
  lemma FileTextCons(line: string, tail: seq<string>)
    requires tail != []
    ensures FileText([line] + tail) == line + "\n" + FileText(tail)
  {
    JoinWithCons("\n", line, tail);
  }

  /** Reading a written file back into lines gives the lines that were written. */
  lemma {:induction false} SplitFileText(lines: seq<string>)
    requires |lines| > 0
    requires AllNoNewline(lines)
    ensures SplitLines(FileText(lines)) == lines
    decreases |lines|
  {
    var tail := lines[1..];
    assert NoNewline(lines[0]);
    if tail == [] {
      assert lines == [lines[0]];
      SplitOneLineFile(lines[0]);
    } else {
      assert AllNoNewline(tail) by {
        AllNoNewlineSlice(lines, 1, |lines|);
        assert lines[1..|lines|] == tail;
      }
      SplitFileText(tail);
      SplitFileTextCons(lines[0], tail);
      assert [lines[0]] + tail == lines;
    }
  }

  /** A file of one line reads back as that line. */
  lemma SplitOneLineFile(line: string)
    requires NoNewline(line)
    ensures SplitLines(FileText([line])) == [line]
  {
    assert FileText([line]) == line + "\n" + "";
    SplitFirstLine(line, "");
  }

  /** The inductive step: a line in front of a file that reads back correctly. */
  lemma SplitFileTextCons(line: string, tail: seq<string>)
    requires NoNewline(line) && tail != []
    requires SplitLines(FileText(tail)) == tail
    ensures SplitLines(FileText([line] + tail)) == [line] + tail
  {
    FileTextCons(line, tail);
    SplitFirstLine(line, FileText(tail));
  }

  /** A line of the list occurs in the written text. */
  lemma FileTextContainsLine(lines: seq<string>, k: nat)
    requires k < |lines|
    ensures Contains(FileText(lines), lines[k])
  {
    JoinWithContainsPart("\n", lines, k);
    ContainsAppend(JoinWith("\n", lines), "\n", lines[k]);
  }

  // ---------------------------------------------------------------------------
  // Where the import goes, as the source computes it

  /** The first line starts with `"""`: the file opens with a module docstring. */
  predicate OpensDocstring(lines: seq<string>): (opens: bool)
    ensures lines == [] ==> !opens
    ensures opens ==> |DocQuote| <= |lines[0]| && lines[0][..|DocQuote|] == DocQuote
  {
    |lines| > 0 && StartsWith(lines[0], DocQuote)
  }

  /** The first line at or after `from` that starts with `"""`, or `|lines|` if there is none. */
  function NextDocQuote(lines: seq<string>, from: nat): (k: nat)
    requires from <= |lines|
    ensures from <= k <= |lines|
    ensures k < |lines| ==> StartsWith(lines[k], DocQuote)
    ensures forall j :: from <= j < k ==> !StartsWith(lines[j], DocQuote)
    decreases |lines| - from
  {
    if from == |lines| || StartsWith(lines[from], DocQuote) then from
    else NextDocQuote(lines, from + 1)
  }

  /**
   The index `end` at which the source inserts: 0 without a docstring;
   otherwise just after the first later line starting with `"""`, or the end
   of the list when no such line exists.
   */
  function InsertionPoint(lines: seq<string>): (p: nat)
    ensures p <= |lines|
    ensures !OpensDocstring(lines) ==> p == 0
    ensures OpensDocstring(lines) ==>
      && 1 <= p
      && (forall j :: 1 <= j < p - 1 ==> !StartsWith(lines[j], DocQuote))
      && (p == |lines| || (p - 1 >= 1 && StartsWith(lines[p - 1], DocQuote)))
  {
    if OpensDocstring(lines) then Min(NextDocQuote(lines, 1) + 1, |lines|) else 0
  }

  /** The lines inserted: a blank line and the import after a docstring, the import alone otherwise. */
  function InsertedLines(lines: seq<string>): (ins: seq<string>)
    ensures |ins| > 0 && ins[|ins| - 1] == FutureImport
    ensures forall i :: 0 <= i < |ins| - 1 ==> ins[i] == ""
    ensures |ins| == 2 <==> OpensDocstring(lines)
    ensures |ins| <= 2
  {
    if OpensDocstring(lines) then ["", FutureImport] else [FutureImport]
  }

  /** The inserted lines are single lines. */
  lemma InsertedLinesOneLine(lines: seq<string>)
    ensures AllNoNewline(InsertedLines(lines))
  {
    assert NoNewline(FutureImport);
  }

  /** Takes `n` lines out at index `p`: the inverse of inserting them there. */
  function RemoveLines(lines: seq<string>, p: nat, n: nat): (r: seq<string>)
    requires p + n <= |lines|
    ensures |r| == |lines| - n
  {
    lines[..p] + lines[p + n..]
  }

  /** `ins` put into `lines` at index `p`, as consecutive `list.insert` calls do. */
  function InsertLines(lines: seq<string>, p: nat, ins: seq<string>): (patched: seq<string>)
    requires p <= |lines|
    ensures |patched| == |lines| + |ins|
    ensures RemoveLines(patched, p, |ins|) == lines
    ensures patched[p..p + |ins|] == ins
  {
    var patched := lines[..p] + ins + lines[p..];
    assert patched[..p] == lines[..p];
    assert patched[p + |ins|..] == lines[p..];
    assert patched[p..p + |ins|] == ins;
    patched
  }

  /** The line list after lines 37-45 of the source, as written. */
  function PatchedLines(lines: seq<string>): (patched: seq<string>)
    ensures |patched| == |lines| + |InsertedLines(lines)|
    ensures RemoveLines(patched, InsertionPoint(lines), |InsertedLines(lines)|) == lines
    ensures patched[InsertionPoint(lines)..InsertionPoint(lines) + |InsertedLines(lines)|] == InsertedLines(lines)
  {
    var p := InsertionPoint(lines);
    InsertLines(lines, p, InsertedLines(lines))
  }

  /**
   The patching step of `_ensure_py39_compat` as the source runs it on the
   list `parts`: the `while` loop that advances `end` over the docstring, and
   the two `parts.insert` calls.
   */
  method PatchLines(parts: seq<string>) returns (patched: seq<string>)
    ensures patched == PatchedLines(parts)
  {
    patched := parts;
    if |patched| > 0 && StartsWith(patched[0], DocQuote) {
      var end := 1;
      while end < |patched| && !StartsWith(patched[end], DocQuote)
        invariant 1 <= end <= |patched|
        invariant forall j :: 1 <= j < end ==> !StartsWith(patched[j], DocQuote)
      {
        end := end + 1;
      }
      assert end == NextDocQuote(parts, 1);
      end := Min(end + 1, |patched|);
      patched := patched[..end] + [""] + patched[end..];
      patched := patched[..end + 1] + [FutureImport] + patched[end + 1..];
      assert patched == parts[..end] + ["", FutureImport] + parts[end..];
    } else {
      patched := [FutureImport] + patched;
    }
  }

  /** Without a leading docstring the import becomes line 0 and every original line follows, in order. */
  lemma PatchWithoutDocstring(lines: seq<string>)
    requires !OpensDocstring(lines)
    ensures PatchedLines(lines) == [FutureImport] + lines
  {
  }

  /**
   With a leading docstring, a blank line and the import follow the first
   later line starting with `"""`; with no such line they are appended.
   */
  lemma PatchAfterDocstring(lines: seq<string>)
    requires OpensDocstring(lines)
    ensures var p := InsertionPoint(lines);
      && PatchedLines(lines) == lines[..p] + ["", FutureImport] + lines[p..]
      && (NextDocQuote(lines, 1) == |lines| ==> PatchedLines(lines) == lines + ["", FutureImport])
  {
    var p := InsertionPoint(lines);
    assert InsertedLines(lines) == ["", FutureImport];
    assert PatchedLines(lines) == lines[..p] + ["", FutureImport] + lines[p..];
    if NextDocQuote(lines, 1) == |lines| {
      assert lines[..p] == lines && lines[p..] == [];
    }
  }

  // ---------------------------------------------------------------------------
  // Where the import should go

  /**
   Line `j` ends the docstring that opens line 0: line 0 itself when a second
   `"""` follows the opening one, a later line when it has `"""` anywhere.
   */
  predicate ClosesDocstring(lines: seq<string>, j: nat)
    requires OpensDocstring(lines) && j < |lines|
  {
    if j == 0 then Contains(lines[0][|DocQuote|..], DocQuote) else Contains(lines[j], DocQuote)
  }

  /** The first line at or after `from` that closes the docstring, or `|lines|`. */
  function NextClosing(lines: seq<string>, from: nat): (k: nat)
    requires OpensDocstring(lines) && from <= |lines|
    ensures from <= k <= |lines|
    ensures k < |lines| ==> ClosesDocstring(lines, k)
    ensures forall j :: from <= j < k ==> !ClosesDocstring(lines, j)
    decreases |lines| - from
  {
    if from == |lines| || ClosesDocstring(lines, from) then from
    else NextClosing(lines, from + 1)
  }

  /** The corrected insertion index: just after the line that closes the module docstring. */
  function FixedInsertionPoint(lines: seq<string>): (p: nat)
    ensures p <= |lines|
    ensures !OpensDocstring(lines) ==> p == 0
  {
    if OpensDocstring(lines) then Min(NextClosing(lines, 0) + 1, |lines|) else 0
  }

  /** The corrected patch: the same insertion, at `FixedInsertionPoint`. */
  function PatchedLinesFixed(lines: seq<string>): (patched: seq<string>)
    ensures |patched| == |lines| + |InsertedLines(lines)|
    ensures RemoveLines(patched, FixedInsertionPoint(lines), |InsertedLines(lines)|) == lines
    ensures patched[FixedInsertionPoint(lines)..FixedInsertionPoint(lines) + |InsertedLines(lines)|] == InsertedLines(lines)
  {
    var p := FixedInsertionPoint(lines);
    InsertLines(lines, p, InsertedLines(lines))
  }

  /**
   The corrected patch puts the blank line and the import immediately after
   the first line that closes the module docstring, and no line before that
   one closes it; only an unclosed docstring sends them to the end.
   */
  lemma FixedImportFollowsDocstring(lines: seq<string>)
    requires OpensDocstring(lines)
    ensures var p := FixedInsertionPoint(lines);
      && 1 <= p
      && PatchedLinesFixed(lines)[p..p + 2] == ["", FutureImport]
      && (forall j :: 0 <= j < p - 1 ==> !ClosesDocstring(lines, j))
      && (p == |lines| || ClosesDocstring(lines, p - 1))
  {
    var p := FixedInsertionPoint(lines);
    assert PatchedLinesFixed(lines)[p..p + 2] == ["", FutureImport];
  }

  /** The example of the finding: a one-line module docstring, then code. */
  const OneLineDocExample: seq<string> := ["\"\"\"DSP helpers.\"\"\"", "import numpy as np"]

  /**
   As written, the source scans past a one-line docstring: in the example the
   docstring is closed on line 0, yet the import lands after the code line,
   at the end of the file, where Python rejects a `__future__` import.
   The corrected patch puts it right after line 0.
   */
  lemma OneLineDocstringMisplacesImport()
    ensures OpensDocstring(OneLineDocExample) && ClosesDocstring(OneLineDocExample, 0)
    ensures PatchedLines(OneLineDocExample) == OneLineDocExample + ["", FutureImport]
    ensures PatchedLinesFixed(OneLineDocExample)
            == [OneLineDocExample[0], "", FutureImport, OneLineDocExample[1]]
  {
    var lines := OneLineDocExample;
    var rest := lines[0][|DocQuote|..];
    assert rest[12..] == DocQuote;
    ContainsAt(rest, DocQuote, 12);
    assert lines[1][0] == 'i';
    assert NextDocQuote(lines, 1) == 2;
    assert NextClosing(lines, 0) == 0;
  }

  // ---------------------------------------------------------------------------
  // The file text and the search over site-packages directories

  /**
   The content `_ensure_py39_compat` leaves in `dsp.py`: unchanged when the
   marker is already there, otherwise the lines patched as the source does
   it, joined by "\n" with a final "\n".
   */
  function CompatText(text: string): (patched: string)
    ensures Contains(patched, FutureImport)
    ensures Contains(text, FutureImport) ==> patched == text
  {
    if Contains(text, FutureImport) then text
    else
      var lines := PatchedLines(SplitLines(text));
      var p := InsertionPoint(SplitLines(text));
      var k := if OpensDocstring(SplitLines(text)) then p + 1 else p;
      assert lines[k] == FutureImport;
      FileTextContainsLine(lines, k);
      FileText(lines)
  }

  /** Patching twice is patching once: the second run finds the marker and leaves the text alone. */
  lemma CompatTextIdempotent(text: string)
    ensures CompatText(CompatText(text)) == CompatText(text)
  {
  }

  /** The line lists, with the inserted lines, are still lists of single lines. */
  lemma PatchKeepsSingleLines(lines: seq<string>, p: nat)
    requires AllNoNewline(lines) && p <= |lines|
    ensures AllNoNewline(lines[..p] + InsertedLines(lines) + lines[p..])
  {
    AllNoNewlineSlice(lines, 0, p);
    AllNoNewlineSlice(lines, p, |lines|);
    assert lines[0..p] == lines[..p] && lines[p..|lines|] == lines[p..];
    InsertedLinesOneLine(lines);
    AllNoNewlineConcat(lines[..p], InsertedLines(lines));
    AllNoNewlineConcat(lines[..p] + InsertedLines(lines), lines[p..]);
  }

  /** The patched file reads back as the original lines with the import inserted where the source puts it. */
  lemma CompatTextLines(text: string)
    requires !Contains(text, FutureImport)
    ensures SplitLines(CompatText(text)) == PatchedLines(SplitLines(text))
  {
    var lines := SplitLines(text);
    var patched := PatchedLines(lines);
    assert patched == lines[..InsertionPoint(lines)] + InsertedLines(lines) + lines[InsertionPoint(lines)..];
    PatchKeepsSingleLines(lines, InsertionPoint(lines));
    assert CompatText(text) == FileText(patched);
    SplitFileText(patched);
  }

  /** The file content with the corrected placement of the import. */
  function CompatTextFixed(text: string): (patched: string)
    ensures Contains(patched, FutureImport)
    ensures Contains(text, FutureImport) ==> patched == text
  {
    if Contains(text, FutureImport) then text
    else
      var lines := PatchedLinesFixed(SplitLines(text));
      var p := FixedInsertionPoint(SplitLines(text));
      var k := if OpensDocstring(SplitLines(text)) then p + 1 else p;
      assert lines[k] == FutureImport;
      FileTextContainsLine(lines, k);
      FileText(lines)
  }

  /** With the corrected placement the file reads back as `PatchedLinesFixed` of its lines. */
  lemma CompatTextFixedLines(text: string)
    requires !Contains(text, FutureImport)
    ensures SplitLines(CompatTextFixed(text)) == PatchedLinesFixed(SplitLines(text))
  {
    var lines := SplitLines(text);
    var patched := PatchedLinesFixed(lines);
    assert patched == lines[..FixedInsertionPoint(lines)] + InsertedLines(lines) + lines[FixedInsertionPoint(lines)..];
    PatchKeepsSingleLines(lines, FixedInsertionPoint(lines));
    assert CompatTextFixed(text) == FileText(patched);
    SplitFileText(patched);
  }

  /** A non-empty needle whose first character does not occur in the haystack is not in it. */
  lemma {:induction false} NotContainsFirst(haystack: string, needle: string)
    requires needle != [] && needle[0] !in haystack
    ensures !Contains(haystack, needle)
    decreases |haystack|
  {
    if haystack != [] {
      assert needle[0] != haystack[0];
      assert forall c :: c in haystack[1..] ==> c in haystack;
      NotContainsFirst(haystack[1..], needle);
    }
  }

  /**
   The finding at file level: the example written to disk comes back with
   the import after the code line, the last line of the file; the corrected
   patch puts it right after the docstring.
   */
  lemma OneLineDocstringFileMisplacesImport()
    ensures var text := FileText(OneLineDocExample);
      && CompatText(text) == FileText(OneLineDocExample + ["", FutureImport])
      && CompatTextFixed(text) == FileText([OneLineDocExample[0], "", FutureImport, OneLineDocExample[1]])
  {
    var lines := OneLineDocExample;
    var text := FileText(lines);
    assert text == lines[0] + "\n" + lines[1] + "\n";
    assert 'f' !in text;
    NotContainsFirst(text, FutureImport);
    assert '\n' !in lines[0] && '\n' !in lines[1];
    assert AllNoNewline(lines);
    SplitFileText(lines);
    OneLineDocstringMisplacesImport();
  }

  /** `sys.version_info`, as far as the `>= (3, 10)` comparison reads it. */
  datatype PythonVersion = PythonVersion(major: nat, minor: nat)

  /** `sys.version_info >= (3, 10)`: tuple order. */
  predicate AtLeast310(v: PythonVersion): (atLeast: bool)
    ensures v.major < 3 ==> !atLeast
    ensures v.major > 3 ==> atLeast
    ensures v.major == 3 ==> (atLeast <==> v.minor >= 10)
  {
    v.major > 3 || (v.major == 3 && v.minor >= 10)
  }

  /** What the `site` module reports. */
  datatype SiteInfo = SiteInfo(hasGetSitePackages: bool, sitePackages: seq<string>, userSitePackages: string)

  /** The `candidates` list: the global site-packages directories when `site` has them, then the user one. */
  function Candidates(site: SiteInfo): (candidates: seq<string>)
    ensures |candidates| > 0 && candidates[|candidates| - 1] == site.userSitePackages
    ensures var globals := if site.hasGetSitePackages then site.sitePackages else [];
      |candidates| == |globals| + 1 && forall i :: 0 <= i < |globals| ==> candidates[i] == globals[i]
  {
    (if site.hasGetSitePackages then site.sitePackages else []) + [site.userSitePackages]
  }

  /** `Path(base) / "mlx_audio" / "dsp.py"`. */
  function DspPath(base: string): (path: string)
    ensures |base| < |path| && path[..|base|] == base
    ensures path[|base|..] == "/mlx_audio/dsp.py"
  {
    base + "/mlx_audio/dsp.py"
  }

  /** Different directories give different `dsp.py` paths. */
  lemma DspPathInjective(a: string, b: string)
    requires DspPath(a) == DspPath(b)
    ensures a == b
  {
  }

  /** The files on disk, by path. */
  type FileSystem = map<string, string>

  /** The candidate is examined: it is not empty and its `dsp.py` exists. */
  predicate HasDsp(base: string, fs: FileSystem): (has: bool)
    ensures base == "" ==> !has
    ensures has ==> DspPath(base) in fs
  {
    base != "" && DspPath(base) in fs
  }

  /** The first candidate at or after `from` that is examined, or `|candidates|`. */
  function FirstDsp(candidates: seq<string>, fs: FileSystem, from: nat): (k: nat)
    requires from <= |candidates|
    ensures from <= k <= |candidates|
    ensures k < |candidates| ==> HasDsp(candidates[k], fs)
    ensures forall j :: from <= j < k ==> !HasDsp(candidates[j], fs)
    decreases |candidates| - from
  {
    if from == |candidates| || HasDsp(candidates[from], fs) then from
    else FirstDsp(candidates, fs, from + 1)
  }

  /** The one file the routine may rewrite: `None` on Python 3.10+ or when no candidate has `dsp.py`. */
  function PatchTarget(version: PythonVersion, site: SiteInfo, fs: FileSystem): (target: Option<string>)
    ensures target.Some? ==> target.value in fs
    ensures AtLeast310(version) ==> target.None?
    ensures target.Some? ==> var candidates := Candidates(site);
      exists k :: 0 <= k < |candidates| && HasDsp(candidates[k], fs) && target.value == DspPath(candidates[k])
                  && forall j :: 0 <= j < k ==> !HasDsp(candidates[j], fs)
    ensures !AtLeast310(version) && target.None? ==> var candidates := Candidates(site);
      forall j :: 0 <= j < |candidates| ==> !HasDsp(candidates[j], fs)
  {
    var candidates := Candidates(site);
    var k := FirstDsp(candidates, fs, 0);
    if AtLeast310(version) || k == |candidates| then None else Some(DspPath(candidates[k]))
  }

  /**
   The files after `_ensure_py39_compat`: at most the target changes, and it
   then holds `CompatText` of its old content.
   */
  function EnsureCompatSpec(version: PythonVersion, site: SiteInfo, fs: FileSystem): (fs': FileSystem)
    ensures fs'.Keys == fs.Keys
    ensures forall path :: path in fs && Some(path) != PatchTarget(version, site, fs) ==> fs'[path] == fs[path]
    ensures PatchTarget(version, site, fs).Some? ==>
      var path := PatchTarget(version, site, fs).value; fs'[path] == CompatText(fs[path])
  {
    match PatchTarget(version, site, fs)
    case None => fs
    case Some(path) => if Contains(fs[path], FutureImport) then fs else fs[path := CompatText(fs[path])]
  }

  /** On Python 3.10 or newer the routine changes nothing. */
  lemma NewPythonUnchanged(version: PythonVersion, site: SiteInfo, fs: FileSystem)
    requires AtLeast310(version)
    ensures EnsureCompatSpec(version, site, fs) == fs
  {
  }

  /** Which candidate is examined depends only on which files exist. */
  lemma {:induction false} FirstDspSameKeys(candidates: seq<string>, fs: FileSystem, fs': FileSystem, from: nat)
    requires from <= |candidates| && fs.Keys == fs'.Keys
    ensures FirstDsp(candidates, fs', from) == FirstDsp(candidates, fs, from)
    decreases |candidates| - from
  {
    if from < |candidates| {
      assert HasDsp(candidates[from], fs) == HasDsp(candidates[from], fs');
      FirstDspSameKeys(candidates, fs, fs', from + 1);
    }
  }

  /** Running the start-up routine a second time changes nothing more. */
  lemma EnsureCompatIdempotent(version: PythonVersion, site: SiteInfo, fs: FileSystem)
    ensures var once := EnsureCompatSpec(version, site, fs);
      EnsureCompatSpec(version, site, once) == once
  {
    var once := EnsureCompatSpec(version, site, fs);
    FirstDspSameKeys(Candidates(site), fs, once, 0);
    assert PatchTarget(version, site, once) == PatchTarget(version, site, fs);
  }

  /**
   When the search reaches candidate `i` and it has `dsp.py`, that file is the
   target: left alone when marked, otherwise rewritten with the patched lines.
   */
  lemma TargetFound(version: PythonVersion, site: SiteInfo, fs: FileSystem, i: nat)
    requires !AtLeast310(version) && i < |Candidates(site)|
    requires FirstDsp(Candidates(site), fs, i) == FirstDsp(Candidates(site), fs, 0)
    requires HasDsp(Candidates(site)[i], fs)
    ensures var path := DspPath(Candidates(site)[i]);
      && PatchTarget(version, site, fs) == Some(path)
      && EnsureCompatSpec(version, site, fs)
         == if Contains(fs[path], FutureImport) then fs
            else fs[path := FileText(PatchedLines(SplitLines(fs[path])))]
  {
  }

  /** When no candidate has `dsp.py`, nothing changes. */
  lemma NoTarget(version: PythonVersion, site: SiteInfo, fs: FileSystem)
    requires FirstDsp(Candidates(site), fs, 0) == |Candidates(site)|
    ensures EnsureCompatSpec(version, site, fs) == fs
  {
  }

  /**
   What the routine does with the `dsp.py` it found: read it, stop if the
   marker is there, otherwise split it into lines, patch them and write them
   back.
   */
  method PatchDsp(fs: FileSystem, path: string) returns (fs': FileSystem)
    requires path in fs
    ensures fs' == if Contains(fs[path], FutureImport) then fs
                   else fs[path := FileText(PatchedLines(SplitLines(fs[path])))]
  {
    var text := fs[path];
    if Contains(text, FutureImport) {
      return fs;
    }
    var parts := SplitLines(text);
    var patched := PatchLines(parts);
    fs' := fs[path := FileText(patched)];
  }

  /**
   `_ensure_py39_compat` with its file I/O as a map: build `candidates`, skip
   empty entries and directories without `mlx_audio/dsp.py`, and stop at the
   first one that has it, patching it unless it already has the marker.
   */
  method EnsurePy39Compat(version: PythonVersion, site: SiteInfo, fs: FileSystem) returns (fs': FileSystem)
    ensures fs' == EnsureCompatSpec(version, site, fs)
  {
    fs' := fs;
    if AtLeast310(version) {
      NewPythonUnchanged(version, site, fs);
      return;
    }
    var candidates: seq<string> := [];
    if site.hasGetSitePackages {
      candidates := candidates + site.sitePackages;
    }
    candidates := candidates + [site.userSitePackages];
    assert candidates == Candidates(site);
    var i := 0;
    while i < |candidates|
      invariant 0 <= i <= |candidates|
      invariant FirstDsp(candidates, fs, i) == FirstDsp(candidates, fs, 0)
      invariant fs' == fs
    {
      var base := candidates[i];
      if base != "" && DspPath(base) in fs {
        TargetFound(version, site, fs, i);
        fs' := PatchDsp(fs, DspPath(base));
        return;
      }
      i := i + 1;
    }
    NoTarget(version, site, fs);
  }

  // ---------------------------------------------------------------------------
  // `transcribe`: the text of the reply

  /** One entry of `res.segments`: a dict whose `"text"` entry may be absent, `None` or a string, or not a dict. */
  datatype Segment = SegmentDict(text: Attr) | NotADict

  /** `getattr(res, "segments", None)`. */
  datatype SegmentsAttr = NoSegments | NoneSegments | SegmentList(segments: seq<Segment>)

  /** The two attributes of the model's result that the handler reads. */
  datatype ModelOutput = ModelOutput(text: Attr, segments: SegmentsAttr)

  /** How `_model.generate(tmp_path)` ended. */
  datatype GenerateOutcome = Generated(output: ModelOutput) | ValueError(message: string) | OtherError

  /** The handler's answer: a reply text, or an exception that reaches the server (status 500). */
  datatype Transcription = Transcribed(text: string) | ServerError

  /** The model's message for audio shorter than it accepts. */
  const TooShort: string := "Input is too short"

  /** `seg.get("text", "").strip()`, `None` when it raises (not a dict, or a `None` entry). */
  function SegmentText(seg: Segment): (text: Option<string>)
    ensures text.Some? ==> IsStripped(text.value)
    ensures text.Some? <==> seg.SegmentDict? && !seg.text.NoneValue?
    ensures seg.SegmentDict? && seg.text.Str? ==> text == Some(Strip(seg.text.s))
    ensures seg == SegmentDict(Missing) ==> text == Some("")
  {
    match seg
    case SegmentDict(Str(s)) => Some(Strip(s))
    case SegmentDict(Missing) => Some("")
    case _ => None
  }

  /** The stripped texts of all segments, `None` as soon as one of them raises. */
  function SegmentTexts(segments: seq<Segment>): (texts: Option<seq<string>>)
    ensures texts.Some? <==> forall i :: 0 <= i < |segments| ==> SegmentText(segments[i]).Some?
    ensures texts.Some? ==> |texts.value| == |segments|
    ensures texts.Some? ==> forall i :: 0 <= i < |segments| ==> texts.value[i] == SegmentText(segments[i]).value
    decreases |segments|
  {
    if segments == [] then Some([])
    else match (SegmentText(segments[0]), SegmentTexts(segments[1..]))
      case (Some(t), Some(ts)) => Some([t] + ts)
      case _ => None
  }

  /** The `try` block of lines 83-86: the joined, stripped segment texts, or "" when joining raises. */
  function JoinSegments(segments: seq<Segment>): (text: string)
    ensures IsStripped(text)
    ensures SegmentTexts(segments).None? ==> text == ""
    ensures SegmentTexts(segments).Some? ==> text == Strip(JoinWith(" ", SegmentTexts(segments).value))
  {
    match SegmentTexts(segments)
    case None => ""
    case Some(texts) => Strip(JoinWith(" ", texts))
  }

  /**
   The text of the reply of `transcribe`. The primary text is stripped;
   only when it is blank and the result has a non-empty segment list are
   the segments used. A `ValueError` about too short input answers "", any
   other exception escapes.
   */
  function Transcribe(outcome: GenerateOutcome): (reply: Transcription)
    ensures reply.Transcribed? ==> IsStripped(reply.text)
    ensures outcome.Generated? ==> reply.Transcribed?
    ensures outcome.ValueError? ==> (reply == Transcribed("") <==> Contains(outcome.message, TooShort))
    ensures outcome.ValueError? && !Contains(outcome.message, TooShort) ==> reply == ServerError
    ensures outcome.OtherError? ==> reply == ServerError
    ensures outcome.Generated? && Strip(AttrText(outcome.output.text)) != ""
            ==> reply == Transcribed(Strip(AttrText(outcome.output.text)))
    ensures outcome.Generated? && Strip(AttrText(outcome.output.text)) == ""
            && !(outcome.output.segments.SegmentList? && |outcome.output.segments.segments| > 0)
            ==> reply == Transcribed("")
    ensures outcome.Generated? && Strip(AttrText(outcome.output.text)) == ""
            && outcome.output.segments.SegmentList? && |outcome.output.segments.segments| > 0
            ==> reply == Transcribed(JoinSegments(outcome.output.segments.segments))
  {
    match outcome
    case ValueError(message) => if Contains(message, TooShort) then Transcribed("") else ServerError
    case OtherError => ServerError
    case Generated(res) =>
      var text := Strip(AttrText(res.text));
      if text == "" && res.segments.SegmentList? && |res.segments.segments| > 0 then
        Transcribed(JoinSegments(res.segments.segments))
      else Transcribed(text)
  }

  /**
   With a blank primary text, segments whose texts are all non-empty are
   joined with single spaces and nothing more is stripped.
   */
  lemma SegmentsJoinedWithSingleSpaces(res: ModelOutput, texts: seq<string>)
    requires Strip(AttrText(res.text)) == ""
    requires res.segments.SegmentList? && |res.segments.segments| > 0
    requires SegmentTexts(res.segments.segments) == Some(texts)
    requires forall i :: 0 <= i < |texts| ==> texts[i] != ""
    ensures Transcribe(Generated(res)) == Transcribed(JoinWith(" ", texts))
  {
    JoinedIsStripped(" ", texts);
    StripStripped(JoinWith(" ", texts));
  }

  /** Joining stripped, non-empty parts gives a string with no whitespace at either end. */
  lemma {:induction false} JoinedIsStripped(sep: string, parts: seq<string>)
    requires |parts| > 0
    requires forall i :: 0 <= i < |parts| ==> parts[i] != "" && IsStripped(parts[i])
    ensures JoinWith(sep, parts) != "" && IsStripped(JoinWith(sep, parts))
    ensures JoinWith(sep, parts)[0] == parts[0][0]
    ensures JoinWith(sep, parts)[|JoinWith(sep, parts)| - 1] == parts[|parts| - 1][|parts[|parts| - 1]| - 1]
    decreases |parts|
  {
    if |parts| > 1 {
      JoinedIsStripped(sep, parts[1..]);
      var tail := JoinWith(sep, parts[1..]);
      var joined := parts[0] + sep + tail;
      assert joined[0] == parts[0][0];
      assert joined[|joined| - 1] == tail[|tail| - 1];
    }
  }
}
