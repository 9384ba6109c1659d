/**
 * The prompt that `GeminiClient.generate_tweet` sends to the model: a fixed template around
 * the trend context and one line per retrieved example.
 */
module Prompt {
  import opened Text
  import opened Tweets

  /** Stands in for the example list when retrieval found nothing. */
  const NoExamples: string := "- No examples available"

  /** The template text before the trend context. */
  const Head: string :=
    "\n        Create an engaging Twitter post that aligns with current trends and follows these guidelines:\n\n"
    + "        **Trend Context**: "

  /** The template text between the trend context and the examples. */
  const Middle: string :=
    "\n\n        **Examples of Successful Tweets** (learn structure from these):\n        "

  /** The template text after the examples: the requirements and the answer format. */
  const Tail: string :=
    "\n\n        **Requirements**:\n"
    + "        - Do NOT include hashtags in the tweet text\n"
    + "        - Keep text under 280 characters (tags excluded from count)\n"
    + "        - Use informal but professional tone\n"
    + "        - Add emojis where appropriate\n"
    + "        - Include 3-5 tags after the tweet for indexing\n"
    + "        - Tags should be relevant comma-separated keywords\n"
    + "        - Format: Tweet text followed by \nTags: tag1, tag2, tag3\n\n"
    + "        Return ONLY in this format:\n"
    + "        [Your engaging tweet text]\n"
    + "        Tags: [comma-separated keywords]\n"
    + "        "

  /** What precedes the example's text on its line. */
  const LinePrefix: string := "- Tweet: \""

  /** `f'- Tweet: "{ex["text"]}"\n  Tags: {", ".join(ex["tags"])}'`. */
  function ExampleLine(ex: Tweet): string {
    LinePrefix + ex.text + "\"\n  Tags: " + Join(ex.tags, ", ")
  }

  function ExampleLines(examples: seq<Tweet>): seq<string> {
    seq(|examples|, i requires 0 <= i < |examples| => ExampleLine(examples[i]))
  }

  /** The examples section: the lines joined by newlines, or the placeholder when there are none. */
  function ExamplesSection(examples: seq<Tweet>): string {
    if examples == [] then NoExamples else Join(ExampleLines(examples), "\n")
  }

  /** The fixed text of the prompt: before the trend context, between it and the examples, and after them. */
  datatype Template = Template(head: string, middle: string, tail: string)

  /** The template `generate_tweet` uses. */
  const TweetTemplate: Template := Template(Head, Middle, Tail)

  /** The prompt a template yields for a trend context and an examples section. */
  function Fill(template: Template, trendContext: string, section: string): string {
    template.head + trendContext + template.middle + section + template.tail
  }

  /** The prompt `generate_tweet` sends for the retrieved examples. */
  function ComposePrompt(trendContext: string, examples: seq<Tweet>): string {
    Fill(TweetTemplate, trendContext, ExamplesSection(examples))
  }

  /** Where the examples section starts in the prompt. */
  function SectionOffset(template: Template, trendContext: string): nat {
    |template.head| + |trendContext| + |template.middle|
  }

  /** The trend context appears verbatim right after the template's head. */
  lemma PromptEmbedsTrend(template: Template, trendContext: string, section: string)
    ensures OccursAt(Fill(template, trendContext, section), trendContext, |template.head|)
  {
    var rest := template.middle + section + template.tail;
    assert Fill(template, trendContext, section) == template.head + trendContext + rest;
    assert OccursAt(trendContext, trendContext, 0);
    OccursAfter(template.head, trendContext, trendContext, 0);
    OccursBefore(template.head + trendContext, rest, trendContext, |template.head|);
  }

  /** The examples section appears verbatim in the prompt, followed by the fixed tail, which ends it. */
  lemma PromptEmbedsSection(template: Template, trendContext: string, section: string)
    ensures var prompt, o := Fill(template, trendContext, section), SectionOffset(template, trendContext);
      && OccursAt(prompt, section, o)
      && OccursAt(prompt, template.tail, o + |section|)
      && |prompt| == o + |section| + |template.tail|
  {
    var before, sec := template.head + trendContext + template.middle, section;
    assert Fill(template, trendContext, section) == before + sec + template.tail;
    assert OccursAt(sec, sec, 0);
    OccursAfter(before, sec, sec, 0);
    OccursBefore(before + sec, template.tail, sec, |before|);
    assert OccursAt(template.tail, template.tail, 0);
    OccursAfter(before + sec, template.tail, template.tail, 0);
  }

  /** The section is the placeholder exactly when there are no examples. */
  lemma SectionIsPlaceholderIffNoExamples(examples: seq<Tweet>)
    ensures ExamplesSection(examples) == NoExamples <==> examples == []
  {
    if examples != [] {
      var lines := ExampleLines(examples);
      JoinLayout(lines, "\n", 0);
      var section := Join(lines, "\n");
      assert section[..|lines[0]|] == lines[0];
      assert lines[0][2] == 'T';
      assert section[2] == 'T' != NoExamples[2];
    }
  }

  /** With no examples, the prompt carries the placeholder where the examples would be. */
  lemma NoExamplesPromptHasPlaceholder(template: Template, trendContext: string)
    ensures OccursAt(Fill(template, trendContext, ExamplesSection([])), NoExamples, SectionOffset(template, trendContext))
  {
    PromptEmbedsSection(template, trendContext, ExamplesSection([]));
  }
  /**
   * Each example has its own rendered line in the section, in retrieval order: line `i` sits at
   * `PartOffset(ExampleLines(examples), "\n", i)`, a newline ends every line but the last, and
   * the last line ends the section.
   */
  lemma ExampleLinesInOrder(examples: seq<Tweet>, i: nat)
    requires i < |examples|
    ensures var lines, section := ExampleLines(examples), ExamplesSection(examples);
      && OccursAt(section, ExampleLine(examples[i]), PartOffset(lines, "\n", i))
      && (i + 1 < |examples| ==> OccursAt(section, "\n", PartOffset(lines, "\n", i) + |lines[i]|))
      && (i + 1 < |examples| ==> PartOffset(lines, "\n", i + 1) == PartOffset(lines, "\n", i) + |lines[i]| + 1)
      && (i + 1 == |examples| ==> |section| == PartOffset(lines, "\n", i) + |lines[i]|)
  {
    JoinLayout(ExampleLines(examples), "\n", i);
  }

  /** Each example's text appears quoted after "- Tweet: " at the start of its line; its joined tags end the line. */
  lemma ExampleLineQuotesText(ex: Tweet)
    ensures OccursAt(ExampleLine(ex), LinePrefix + ex.text + "\"", 0)
    ensures OccursAt(ExampleLine(ex), ex.text, |LinePrefix|)
    ensures OccursAt(ExampleLine(ex), "\"\n  Tags: " + Join(ex.tags, ", "), |LinePrefix| + |ex.text|)
    ensures OccursAt(ExampleLine(ex), Join(ex.tags, ", "), |ExampleLine(ex)| - |Join(ex.tags, ", ")|)
    ensures ex.tags == [] ==> ExampleLine(ex) == LinePrefix + ex.text + "\"\n  Tags: "
  {
    var line := ExampleLine(ex);
    var lead := LinePrefix + ex.text + "\"";
    assert line[..|lead|] == lead;
    assert line[|LinePrefix|..|LinePrefix| + |ex.text|] == ex.text;
    var tags := Join(ex.tags, ", ");
    assert line[|LinePrefix| + |ex.text|..] == "\"\n  Tags: " + tags;
    assert line[|line| - |tags|..] == tags;
  }

  /** Each example's line sits in the prompt, inside the examples section, in retrieval order. */
  lemma ExampleLineInPrompt(template: Template, trendContext: string, examples: seq<Tweet>, i: nat)
    requires i < |examples|
    ensures OccursAt(Fill(template, trendContext, ExamplesSection(examples)), ExampleLine(examples[i]),
                     SectionOffset(template, trendContext) + PartOffset(ExampleLines(examples), "\n", i))
  {
    ExampleLinesInOrder(examples, i);
    PromptEmbedsSection(template, trendContext, ExamplesSection(examples));
    OccursWithin(Fill(template, trendContext, ExamplesSection(examples)), ExamplesSection(examples),
                 ExampleLine(examples[i]), SectionOffset(template, trendContext), PartOffset(ExampleLines(examples), "\n", i));
  }

  /**
   * The placeholder in the prompt does not by itself mean there were no examples: an example
   * whose text is the placeholder puts it into the prompt too.
   */
  lemma PlaceholderFromAnExample(template: Template, trendContext: string)
    ensures var examples := [Tweet(NoExamples, [])];
      && examples != []
      && OccursAt(Fill(template, trendContext, ExamplesSection(examples)), NoExamples,
                  SectionOffset(template, trendContext) + |LinePrefix|)
  {
    var examples := [Tweet(NoExamples, [])];
    ExampleLineInPrompt(template, trendContext, examples, 0);
    ExampleLineQuotesText(examples[0]);
    OccursWithin(Fill(template, trendContext, ExamplesSection(examples)), ExampleLine(examples[0]), NoExamples,
                 SectionOffset(template, trendContext), |LinePrefix|);
  }
}
