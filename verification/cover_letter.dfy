/** The cover-letter view: its plain-text serialisation (used for copy and
    download) and the edits of its five fields. */
module CoverLetter {
  import opened Text

  datatype Cover = Cover(subject: string, greeting: string, body: seq<string>, valediction: string, signature: string)

  /** The lines of the plain text: subject, a blank line, the greeting, a
      blank line, one line per paragraph, a blank line, the valediction and
      the signature. */
  function Lines(d: Cover): (r: seq<string>)
    ensures |r| == 7 + |d.body|
    ensures r[0] == d.subject && r[1] == "" && r[2] == d.greeting && r[3] == ""
    ensures forall i :: 0 <= i < |d.body| ==> r[4 + i] == d.body[i]
    ensures r[4 + |d.body|] == "" && r[5 + |d.body|] == d.valediction && r[6 + |d.body|] == d.signature
  {
    [d.subject, "", d.greeting, ""] + d.body + ["", d.valediction, d.signature]
  }

  /** `coverToPlainText`. */
  function PlainText(d: Cover): string {
    Join(Lines(d), "\n")
  }

  /** No field of the letter spans several lines. */
  predicate SingleLineFields(d: Cover) {
    && Lacks(d.subject, '\n') && Lacks(d.greeting, '\n')
    && (forall i :: 0 <= i < |d.body| ==> Lacks(d.body[i], '\n'))
    && Lacks(d.valediction, '\n') && Lacks(d.signature, '\n')
  }

  /** When no field holds a line break, the plain text has exactly
      7 + |body| lines, the first of which is the subject, and splitting it
      recovers the letter's layout. */
  lemma PlainTextLines(d: Cover)
    requires SingleLineFields(d)
    ensures Split(PlainText(d), "\n") == Lines(d)
    ensures |Split(PlainText(d), "\n")| == 7 + |d.body|
    ensures Split(PlainText(d), "\n")[0] == d.subject
  {
    var ls := Lines(d);
    forall i | 0 <= i < |ls| ensures Lacks(ls[i], '\n') {
      if 4 <= i < 4 + |d.body| {
        assert ls[i] == d.body[i - 4];
      }
    }
    SplitJoin(ls, "\n");
  }

  datatype Field = Subject | Greeting | Body | Valediction | Signature

  /** The paragraphs stored from the body text area: its lines without the
      empty ones (`split("\n").filter(Boolean)`). */
  function Paragraphs(input: string): (r: seq<string>)
    ensures forall i :: 0 <= i < |r| ==> |r[i]| > 0
  {
    NonEmpty(Split(input, "\n"))
  }

  /** The text area shows the paragraphs one per line. */
  function BodyText(d: Cover): string {
    Join(d.body, "\n")
  }

  /** One `onChange` handler: the edited field takes the new input (the body
      through `Paragraphs`), and every other field keeps its value. */
  function Edit(d: Cover, field: Field, input: string): (r: Cover)
    ensures r.subject == (if field == Subject then input else d.subject)
    ensures r.greeting == (if field == Greeting then input else d.greeting)
    ensures field != Body ==> r.body == d.body
    ensures field == Body ==> r.body == Paragraphs(input)
    ensures field == Body ==> forall i :: 0 <= i < |r.body| ==> |r.body[i]| > 0
    ensures r.valediction == (if field == Valediction then input else d.valediction)
    ensures r.signature == (if field == Signature then input else d.signature)
  {
    match field
    case Subject => d.(subject := input)
    case Greeting => d.(greeting := input)
    case Body => d.(body := Paragraphs(input))
    case Valediction => d.(valediction := input)
    case Signature => d.(signature := input)
  }

  /** A stored paragraph is a non-empty line of the edited text. */
  lemma {:induction false} ParagraphsAreLines(input: string, p: string)
    ensures p in Paragraphs(input) <==> p in Split(input, "\n") && |p| > 0
  {
    NonEmptyMembers(Split(input, "\n"), p);
  }

  /** Showing the paragraphs in the text area and storing the text back
      changes nothing when every paragraph is a non-empty single line. */
  lemma BodyRoundTrip(d: Cover)
    requires forall i :: 0 <= i < |d.body| ==> |d.body[i]| > 0 && Lacks(d.body[i], '\n')
    ensures Edit(d, Body, BodyText(d)) == d
  {
    if |d.body| == 0 {
      assert Split("", "\n") == [""];
      assert NonEmpty([""]) == [] by {
        assert [""][1..] == [];
      }
    } else {
      SplitJoin(d.body, "\n");
      NonEmptyKeepsAll(d.body);
    }
  }
}
