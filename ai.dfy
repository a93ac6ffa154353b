/**
 * The categorization service: the instruction sent to the hosted language model, the
 * prompt built from the entry, and what is returned for the model's reply.
 */
module Ai {
  import opened Text
  import opened Wrappers

  /** The two texts sent to the model. */
  datatype Prompt = Prompt(system: string, user: string)

  /** What the remote call yields: the reply text, or a failure of any kind. */
  datatype ModelReply = Replied(text: string) | CallFailed

  /** The label returned whenever the remote call fails. */
  const Fallback: string := "Uncategorized"

  const NoCategories: string := "No existing categories"

  const SystemIntro: string :=
    "You are an AI assistant that categorizes journal entries. Based on the title and content provided, "
    + "suggest a single, concise category name (2-4 words max) that best represents the theme or topic of the entry.\n"
    + "\n"
    + "If the entry closely matches one of these existing categories, use that exact category name instead of creating a new one:\n"

  const SystemOutro: string :=
    "\n"
    + "\n"
    + "Examples of good category names:\n"
    + "- Work Ideas\n"
    + "- Personal Reflections  \n"
    + "- Travel Plans\n"
    + "- Health & Fitness\n"
    + "- Creative Projects\n"
    + "- Learning Notes\n"
    + "- Relationship Thoughts\n"
    + "- Financial Planning\n"
    + "\n"
    + "Respond with ONLY the category name, nothing else."

  const TitleLabel: string := "Title: "
  const ContentLabel: string := "\n\nContent: "

  /** Each existing name as a list item `- name`, in input order. */
  function Bullets(names: seq<string>): seq<string>
  {
    seq(|names|, k requires 0 <= k < |names| => "- " + names[k])
  }

  /**
   * The list section of the instruction. With no names it is the fixed placeholder;
   * otherwise it is the bullet lines joined by newlines, and splitting it at the
   * newlines gives the bullet lines back (so there is no trailing newline) as long as
   * no name itself holds a newline.
   */
  function CategoryList(names: seq<string>): (r: string)
    ensures names == [] ==> r == NoCategories
    // the first bullet opens the section and the last name closes it, whatever the names hold
    ensures names != [] ==> StartsWith(r, "- " + names[0]) && EndsWith(r, names[|names| - 1])
    ensures names != [] && (forall k :: 0 <= k < |names| ==> '\n' !in names[k])
            ==> Split(r, '\n') == Bullets(names)
  {
    if |names| > 0 then
      var lines := Bullets(names);
      var last := lines[|lines| - 1];
      assert last[|last| - |names[|names| - 1]|..] == names[|names| - 1];
      assert forall k :: 0 <= k < |names| ==> lines[k] == ['-', ' '] + names[k];
      assert (forall k :: 0 <= k < |names| ==> '\n' !in names[k])
             ==> Split(Join(lines, '\n'), '\n') == lines by {
        if forall k :: 0 <= k < |names| ==> '\n' !in names[k] {
          SplitJoin(lines, '\n');
        }
      }
      Join(lines, '\n')
    else NoCategories
  }

  /** Where the three pieces of `a + m + b` sit. */
  lemma Sandwich(a: string, m: string, b: string)
    ensures StartsWith(a + m + b, a) && EndsWith(a + m + b, b)
    ensures (a + m + b)[|a|..|a + m + b| - |b|] == m
  {
    var r := a + m + b;
    assert r[..|a|] == a;
    assert r[|a|..|r| - |b|] == m;
    assert r[|r| - |b|..] == b;
  }

  /** The instruction text: the list section sits between the fixed opening and closing text. */
  function SystemPrompt(names: seq<string>): (r: string)
    ensures StartsWith(r, SystemIntro) && EndsWith(r, SystemOutro)
    ensures |r| == |SystemIntro| + |CategoryList(names)| + |SystemOutro|
    ensures r[|SystemIntro|..|r| - |SystemOutro|] == CategoryList(names)
  {
    Sandwich(SystemIntro, CategoryList(names), SystemOutro);
    SystemIntro + CategoryList(names) + SystemOutro
  }

  /**
   * The user prompt: the title label, the title, the content label, the content, each
   * where it belongs; it can be read back whenever the title holds no newline.
   */
  function UserPrompt(title: string, content: string): (r: string)
    ensures |r| == |TitleLabel| + |title| + |ContentLabel| + |content|
    ensures StartsWith(r, TitleLabel) && EndsWith(r, content)
    ensures r[|TitleLabel|..|TitleLabel| + |title|] == title
    ensures r[|TitleLabel| + |title|..|r| - |content|] == ContentLabel
    ensures '\n' !in title ==> ParsePrompt(r) == Some((title, content))
  {
    var r := TitleLabel + title + ContentLabel + content;
    assert r[..|TitleLabel|] == TitleLabel;
    assert r[|TitleLabel|..|TitleLabel| + |title|] == title;
    assert r[|TitleLabel| + |title|..|r| - |content|] == ContentLabel;
    assert r[|r| - |content|..] == content;
    assert '\n' !in title ==> ParsePrompt(r) == Some((title, content)) by {
      if '\n' !in title {
        var rest := r[|TitleLabel|..];
        assert rest == title + ContentLabel + content;
        assert rest[..|title|] == title;
        assert rest[|title|] == '\n';
        assert IndexOf(rest, '\n') == |title|;
        assert rest[|title|..] == ContentLabel + content;
      }
    }
    r
  }

  /** Reads a user prompt back into its title and content. */
  function ParsePrompt(p: string): Option<(string, string)>
  {
    if !StartsWith(p, TitleLabel) then None
    else
      var rest := p[|TitleLabel|..];
      var i := IndexOf(rest, '\n');
      if StartsWith(rest[i..], ContentLabel) then Some((rest[..i], rest[i + |ContentLabel|..]))
      else None
  }

  /**
   * `categorizeEntry`: asks the model once with the instruction for `names` and the
   * prompt for the entry. A failed call gives exactly the fallback label; a reply gives
   * its text with the surrounding whitespace removed and nothing else checked. Either
   * way the result is already trimmed.
   */
  function CategorizeEntry(title: string, content: string, names: seq<string>,
                           model: Prompt -> ModelReply): (r: string)
    ensures var reply := model(Prompt(SystemPrompt(names), UserPrompt(title, content)));
            && (reply.CallFailed? ==> r == Fallback)
            && (reply.Replied? ==> r == Trim(reply.text))
            && (reply.Replied? && AllWhitespace(reply.text) ==> r == [])
    ensures IsTrimmed(r) && Trim(r) == r
  {
    match model(Prompt(SystemPrompt(names), UserPrompt(title, content)))
    case Replied(text) =>
      TrimmedIsFixed(Trim(text));
      Trim(text)
    case CallFailed =>
      TrimmedIsFixed(Fallback);
      Fallback
  }
}
