/** Worked slugs of concrete headings. */
module SlugExamples {
  import opened Strings
  import opened Slugs

  lemma TheProblemDropped()
    ensures DropSpecial("The Problem!!") == "The Problem"
  {
    DropSpecialOfKept("The Problem");
    DropSpecialAppend("The Problem", "!!");
    assert "The Problem" + "!!" == "The Problem!!";
  }

  lemma TheProblemCased()
    ensures Lower(Hyphenate("The Problem")) == "the-problem"
  {
    assert Hyphenate("The Problem") == "The-Problem";
  }

  /** Punctuation is dropped, the space becomes `-`, letters are lower-cased. */
  lemma SlugOfTheProblem()
    ensures Slug("The Problem!!") == "the-problem"
  {
    TheProblemDropped();
    StripOfTrimmed("The Problem");
    TheProblemCased();
  }

  /** Two spaces give two hyphens: runs are not collapsed. */
  lemma SlugOfDoubleSpace()
    ensures Slug("a  b") == "a--b"
  {
    assert DropSpecial("a  b") == "a  b";
    StripOfTrimmed("a  b");
    assert Hyphenate("a  b") == "a--b";
    assert Lower("a--b") == "a--b";
  }
}
