/**
 * `load_prompts_from_file` in imagen3_server.py: one prompt per line, each line
 * stripped of surrounding whitespace, blank lines dropped, order kept.
 *
 * The file is given as the lines Python's file iteration yields (each still
 * carrying its line terminator, which stripping removes), or as the error
 * that opening or reading it raised.
 */
module Prompts {
  import opened Options
  import opened Text

  /** Why the file could not be read; both make the loader return no prompts. */
  datatype ReadError = FileNotFound | OtherError

  /** The prompt a line contributes: its stripped text, or nothing for a blank line. */
  function LinePrompts(line: string): (r: seq<string>)
    ensures |r| <= 1
  {
    var s := Strip(line);
    if s != [] then [s] else []
  }

  /** The prompts of `lines`, in order: the stripped text of every line that is not blank. */
  function PromptsOf(lines: seq<string>): (r: seq<string>)
    ensures |r| <= |lines|
  {
    if lines == [] then [] else PromptsOf(lines[..|lines| - 1]) + LinePrompts(lines[|lines| - 1])
  }

  /**
   * `load_prompts_from_file(filepath)`: the prompts of the file's lines, or
   * none when the file is missing or reading it fails.
   */
  method LoadPrompts(file: Result<seq<string>, ReadError>) returns (prompts: seq<string>)
    ensures file.Ok? ==> prompts == PromptsOf(file.value)
    ensures file.Err? ==> prompts == []
    ensures forall k :: 0 <= k < |prompts| ==> prompts[k] != [] && IsStripped(prompts[k])
  {
    prompts := [];
    if file.Err? {
      return;
    }
    var lines := file.value;
    var i := 0;
    while i < |lines|
      invariant 0 <= i <= |lines|
      invariant prompts == PromptsOf(lines[..i])
    {
      assert lines[..i + 1][..i] == lines[..i];
      var stripped := Strip(lines[i]);
      if stripped != [] {
        prompts := prompts + [stripped];
      }
      i := i + 1;
    }
    assert lines[..i] == lines;
    PromptsAreStrippedLines(lines);
  }

  /** Every prompt is non-empty and has no whitespace at either end. */
  lemma {:induction false} PromptsAreStrippedLines(lines: seq<string>)
    ensures forall k :: 0 <= k < |PromptsOf(lines)| ==> PromptsOf(lines)[k] != [] && IsStripped(PromptsOf(lines)[k])
  {
    if lines != [] {
      PromptsAreStrippedLines(lines[..|lines| - 1]);
    }
  }

  /** Loading is line by line: the prompts of two runs of lines are the prompts of each, in order. */
  lemma {:induction false} PromptsOfAppend(a: seq<string>, b: seq<string>)
    ensures PromptsOf(a + b) == PromptsOf(a) + PromptsOf(b)
    decreases |b|
  {
    if b == [] {
      assert a + b == a;
    } else {
      var b' := b[..|b| - 1];
      assert (a + b)[..|a + b| - 1] == a + b';
      PromptsOfAppend(a, b');
    }
  }

  /** A text is a prompt exactly when it is the stripped, non-blank form of one of the lines. */
  lemma PromptMembership(lines: seq<string>, p: string)
    ensures p in PromptsOf(lines) <==> p != [] && exists k :: 0 <= k < |lines| && Strip(lines[k]) == p
  {
    if p in PromptsOf(lines) {
      PromptHasLine(lines, p);
    }
    if p != [] && exists k :: 0 <= k < |lines| && Strip(lines[k]) == p {
      var k :| 0 <= k < |lines| && Strip(lines[k]) == p;
      LineGivesPrompt(lines, k);
    }
  }

  /** Every prompt comes from some line. */
  lemma {:induction false} PromptHasLine(lines: seq<string>, p: string)
    requires p in PromptsOf(lines)
    ensures p != [] && exists k :: 0 <= k < |lines| && Strip(lines[k]) == p
  {
    var n := |lines| - 1;
    var init := lines[..n];
    assert PromptsOf(lines) == PromptsOf(init) + LinePrompts(lines[n]);
    if p in PromptsOf(init) {
      PromptHasLine(init, p);
      var k :| 0 <= k < |init| && Strip(init[k]) == p;
      assert lines[k] == init[k];
    } else {
      assert Strip(lines[n]) == p;
    }
  }

  /** Every line that is not blank gives a prompt. */
  lemma {:induction false} LineGivesPrompt(lines: seq<string>, k: nat)
    requires k < |lines| && Strip(lines[k]) != []
    ensures Strip(lines[k]) in PromptsOf(lines)
  {
    var n := |lines| - 1;
    var init := lines[..n];
    var p := Strip(lines[k]);
    var before, last := PromptsOf(init), LinePrompts(lines[n]);
    assert PromptsOf(lines) == before + last;
    if k < n {
      assert init[k] == lines[k];
      LineGivesPrompt(init, k);
      assert p in before;
    } else {
      assert k == n;
      assert LinePrompts(lines[k]) == [p];
    }
  }

  /**
   * Writing the prompts back one per line and loading them again gives the
   * same prompts: the filter is idempotent.
   */
  lemma {:induction false} ReloadIsIdentity(lines: seq<string>)
    ensures PromptsOf(PromptsOf(lines)) == PromptsOf(lines)
  {
    if lines != [] {
      var init := lines[..|lines| - 1];
      var last := LinePrompts(lines[|lines| - 1]);
      ReloadIsIdentity(init);
      PromptsOfAppend(PromptsOf(init), last);
      if last != [] {
        StripIdempotent(lines[|lines| - 1]);
        assert PromptsOf(last) == PromptsOf([]) + LinePrompts(last[0]);
      }
    }
  }

  /** Lines that are all blank give no prompts, and the loader then returns the empty list. */
  lemma {:induction false} BlankFileHasNoPrompts(lines: seq<string>)
    requires forall k :: 0 <= k < |lines| ==> AllSpace(lines[k])
    ensures PromptsOf(lines) == []
  {
    if lines != [] {
      BlankFileHasNoPrompts(lines[..|lines| - 1]);
    }
  }
}
