/**
 * The profile form's skills field: a comma-separated line turned into the
 * list of skills saved with the profile.
 */
module ProfileSetup {
  import Text
  import Lists

  /** `parts.map(s => s.trim())`. */
  function TrimAll(parts: seq<string>): (r: seq<string>)
    ensures |r| == |parts| && forall i :: 0 <= i < |parts| ==> r[i] == Text.Trim(parts[i])
  {
    seq(|parts|, i requires 0 <= i < |parts| => Text.Trim(parts[i]))
  }

  /** The trimmed pieces between commas, before empty ones are dropped. */
  function Pieces(input: string): seq<string> {
    TrimAll(Text.Split(input, ','))
  }

  /** A character that leaves a piece blank: white space or the separator. */
  predicate IsBlankOrComma(c: char) {
    c == ',' || Text.IsWhiteSpace(c)
  }

  /** What every saved skill looks like. */
  predicate IsSkill(s: string) {
    s != "" && Text.IsTrimmed(s) && ',' !in s
  }

  /** The input holds nothing but white space and commas. */
  predicate AllBlankOrComma(s: string) {
    forall i :: 0 <= i < |s| ==> IsBlankOrComma(s[i])
  }

  /** Every piece is white space only. */
  predicate AllPiecesBlank(parts: seq<string>) {
    forall j :: 0 <= j < |parts| ==> Text.AllWhiteSpace(parts[j])
  }

  function NonEmpty(s: string): bool { s != "" }

  /** `input.split(',').map(s => s.trim()).filter(Boolean)`. */
  function ParseSkills(input: string): (skills: seq<string>)
    ensures forall i :: 0 <= i < |skills| ==> IsSkill(skills[i])
    ensures Lists.IsSubsequence(skills, Pieces(input))
    ensures forall x :: x != "" ==> multiset(skills)[x] == multiset(Pieces(input))[x]
    ensures |skills| <= multiset(input)[','] + 1
    ensures skills == [] <==> AllBlankOrComma(input)
  {
    Text.SplitCount(input, ',');
    PiecesHaveNoComma(input);
    Lists.FilterIsSubsequence(Pieces(input), NonEmpty);
    NonEmptyPiecesKept(Pieces(input));
    NoSkillsIffBlank(input);
    Lists.Filter(Pieces(input), NonEmpty)
  }

  /** `filter(Boolean)` keeps every copy of each non-empty string. */
  lemma NonEmptyPiecesKept(pieces: seq<string>)
    ensures forall x :: x != "" ==> multiset(Lists.Filter(pieces, NonEmpty))[x] == multiset(pieces)[x]
  {
    Lists.FilterCount(pieces, NonEmpty);
  }

  /** Trimming a comma-free piece leaves it comma-free. */
  lemma PiecesHaveNoComma(input: string)
    ensures forall j :: 0 <= j < |Pieces(input)| ==> ',' !in Pieces(input)[j]
  {
    var parts := Text.Split(input, ',');
    var pieces := Pieces(input);
    forall j | 0 <= j < |pieces| ensures ',' !in pieces[j] {
      Text.TrimKeepsOut(parts[j], ',');
    }
  }

  /** Nothing survives exactly when every trimmed piece is empty, i.e. the input is blanks and commas. */
  lemma NoSkillsIffBlank(input: string)
    ensures Lists.Filter(Pieces(input), NonEmpty) == [] <==> AllBlankOrComma(input)
  {
    BlankPieces(input);
    NothingNonEmpty(Pieces(input));
    EmptyPiecesIffBlank(input);
  }

  /** Filtering out empty strings leaves nothing exactly when every string is empty. */
  lemma NothingNonEmpty(pieces: seq<string>)
    ensures Lists.Filter(pieces, NonEmpty) == [] <==> forall j :: 0 <= j < |pieces| ==> pieces[j] == ""
  {
    if Lists.Filter(pieces, NonEmpty) == [] {
      forall j | 0 <= j < |pieces| ensures pieces[j] == "" {
        assert !NonEmpty(pieces[j]);
      }
    }
  }

  /** A trimmed piece is empty exactly when the untrimmed one is all white space. */
  lemma EmptyPiecesIffBlank(input: string)
    ensures (forall j :: 0 <= j < |Pieces(input)| ==> Pieces(input)[j] == "") <==> AllPiecesBlank(Text.Split(input, ','))
  {
    var parts := Text.Split(input, ',');
    var pieces := Pieces(input);
    assert forall j :: 0 <= j < |parts| ==> (pieces[j] == "" <==> Text.AllWhiteSpace(parts[j]));
  }

  lemma AllWhiteSpaceCons(c: char, t: string)
    ensures Text.AllWhiteSpace([c] + t) <==> Text.IsWhiteSpace(c) && Text.AllWhiteSpace(t)
  {
    var s := [c] + t;
    assert s[0] == c;
    assert forall m :: 0 <= m < |t| ==> s[m + 1] == t[m];
    if Text.IsWhiteSpace(c) && Text.AllWhiteSpace(t) {
      forall i | 0 <= i < |s| ensures Text.IsWhiteSpace(s[i]) {
        if i > 0 {
          assert s[i] == t[i - 1];
        }
      }
    }
  }

  lemma AllPiecesBlankCons(x: string, rest: seq<string>)
    ensures AllPiecesBlank([x] + rest) <==> Text.AllWhiteSpace(x) && AllPiecesBlank(rest)
  {
    assert ([x] + rest)[0] == x;
    assert forall j :: 0 <= j < |rest| ==> ([x] + rest)[j + 1] == rest[j];
  }

  lemma AllBlankOrCommaCons(s: string)
    requires s != []
    ensures AllBlankOrComma(s) <==> IsBlankOrComma(s[0]) && AllBlankOrComma(s[1..])
  {
    assert forall i :: 1 <= i < |s| ==> s[i] == s[1..][i - 1];
  }

  /** Every piece between commas is blank exactly when the input holds only blanks and commas. */
  lemma {:induction false} BlankPieces(s: string)
    ensures AllPiecesBlank(Text.Split(s, ',')) <==> AllBlankOrComma(s)
    decreases |s|
  {
    if s != [] {
      BlankPieces(s[1..]);
      AllBlankOrCommaCons(s);
      var rest := Text.Split(s[1..], ',');
      Text.SplitCons(s, ',');
      if s[0] == ',' {
        AllPiecesBlankCons("", rest);
      } else {
        AllPiecesBlankCons([s[0]] + rest[0], rest[1..]);
        AllPiecesBlankCons(rest[0], rest[1..]);
        assert [rest[0]] + rest[1..] == rest;
        AllWhiteSpaceCons(s[0], rest[0]);
      }
    }
  }

  /** Saved skills joined with commas parse back to the same list. */
  lemma {:induction false} ParseJoinedSkills(skills: seq<string>)
    requires forall i :: 0 <= i < |skills| ==> IsSkill(skills[i])
    ensures ParseSkills(Text.Join(skills, ',')) == skills
  {
    if skills == [] {
      var pieces := Pieces("");
      assert pieces == [""];
      assert Lists.Filter(pieces, NonEmpty) == [];
    } else {
      Text.SplitJoin(skills, ',');
      assert Pieces(Text.Join(skills, ',')) == skills;
      Lists.FilterKeepsAll(skills, NonEmpty);
    }
  }

  /** Parsing what was saved, joined with commas, gives what was saved. */
  lemma ReparseIsIdentity(input: string)
    ensures ParseSkills(Text.Join(ParseSkills(input), ',')) == ParseSkills(input)
  {
    ParseJoinedSkills(ParseSkills(input));
  }
}
