/**
 * Concrete command lines and what `main` makes of them, each traced through
 * the argument loop one visited token at a time.
 */
module Scenarios {
  import opened Text
  import opened Parser

  /** `--title -h hi`: the `-h` is the title's value, so it is not a help request. */
  lemma HelpAsTitleValue()
    ensures Parse(["--title", "-h", "hi"]) == Ok(Notification("info", "-h", "hi", 5, true))
  {
    var a := ["--title", "-h", "hi"];
    NotPrefix("hi", "-", 0);
    NotPrefix("--title", "--type=", 3);
    var f := Defaults.(title := "-h");
    assert ScanFrom(a, 3, f.(message := "hi")) == Scanned(f.(message := "hi"));
    assert ScanFrom(a, 2, f) == ScanFrom(a, 3, f.(message := "hi"));
    assert ScanFrom(a, 0, Defaults) == ScanFrom(a, 2, f);
  }

  /** `hi ""`: the empty token is positional too and replaces the message with nothing. */
  lemma EmptyTokenClearsMessage()
    ensures Parse(["hi", ""]) == MissingMessage
  {
  }

  /** `--type= hi`: an empty assignment sets the type to the empty string, which is rejected. */
  lemma EmptyTypeIsInvalid()
    ensures Parse(["--type=", "hi"]) == InvalidType("")
  {
    var a := ["--type=", "hi"];
    NotPrefix("hi", "-", 0);
    var f := Defaults.(typ := "");
    assert ScanFrom(a, 2, f.(message := "hi")) == Scanned(f.(message := "hi"));
    assert ScanFrom(a, 1, f) == ScanFrom(a, 2, f.(message := "hi"));
    assert TrimPrefix("--type=", "--type=") == "";
    assert ScanFrom(a, 0, Defaults) == ScanFrom(a, 1, f);
  }

  /** `x -h`: a help flag after the message still wins. */
  lemma LateHelp()
    ensures Parse(["x", "-h"]) == Help
  {
  }
}
