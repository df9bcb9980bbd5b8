/**
 The preview title of an exam document in the content studio: the year,
 the exam level as a three-letter code, and the first word of the session,
 separated by single spaces (for example `2023 VBE Pagrindinė`).
 */
module Exam {
  import opened Optional
  import opened Strings

  /** The fields selected for the preview; any of them may be unset. */
  datatype Selection = Selection(metai: Maybe<string>, level: Maybe<string>, sesija: Maybe<string>)

  /** The selection used when none is passed at all. */
  const DefaultSelection: Selection := Selection(Defined(""), Defined(""), Defined(""))

  /** The level value that stands for the national exam. */
  const NationalLevel: string := "Valstybinis"

  /** JavaScript's `x || fallback` on a string: the empty string is falsy. */
  function OrElse(x: string, fallback: string): (r: string)
    ensures |x| > 0 ==> r == x
    ensures |x| == 0 ==> r == fallback
  {
    if |x| > 0 then x else fallback
  }

  /** The first piece of an optional string split at `sep`, or `""` when it is unset
      (`text?.split(sep)[0] || ''`). */
  function FirstPiece(text: Maybe<string>, sep: char): (piece: string)
    ensures sep !in piece
    ensures text.Undefined? ==> piece == ""
    ensures text.Defined? ==> piece == PrefixBefore(text.value, sep)
  {
    match text
    case Undefined => ""
    case Defined(t) =>
      SplitHead(t, sep);
      OrElse(Split(t, sep)[0], "")
  }

  /** The year shown: the text of the date before its first `-`. */
  function YearPart(metai: Maybe<string>): string {
    FirstPiece(metai, '-')
  }

  /** The session shown: its first word. */
  function SessionPart(sesija: Maybe<string>): string {
    FirstPiece(sesija, ' ')
  }

  /** The level code: `VBE` for the national level, `MBE` for anything else. */
  function LevelCode(level: Maybe<string>): (code: string)
    ensures code == "VBE" || code == "MBE"
    ensures code == "VBE" <==> level == Defined(NationalLevel)
  {
    if level == Defined(NationalLevel) then "VBE" else "MBE"
  }

  /** `preview.prepare(selection).title`. Splitting the title at spaces gives the session
      part last, the level code before it, and the year part (which may itself hold
      spaces) in front. */
  function Title(selection: Maybe<Selection>): (title: string)
    ensures
      var s := selection.Otherwise(DefaultSelection);
      var pieces := Split(title, ' ');
      && |pieces| >= 3
      && pieces[|pieces| - 1] == SessionPart(s.sesija)
      && pieces[|pieces| - 2] == LevelCode(s.level)
      && Join(pieces[..|pieces| - 2], ' ') == YearPart(s.metai)
  {
    var s := selection.Otherwise(DefaultSelection);
    var year := YearPart(s.metai);
    var code := LevelCode(s.level);
    var session := SessionPart(s.sesija);
    TitleSplits(year, code, session);
    year + " " + code + " " + session
  }

  /** How a title assembled from its three parts splits at spaces. */
  lemma TitleSplits(year: string, code: string, session: string)
    requires ' ' !in code && ' ' !in session
    ensures
      var pieces := Split(year + " " + code + " " + session, ' ');
      && |pieces| >= 3
      && pieces[|pieces| - 1] == session
      && pieces[|pieces| - 2] == code
      && Join(pieces[..|pieces| - 2], ' ') == year
  {
    var rest := code + [' '] + session;
    assert year + " " + code + " " + session == year + [' '] + rest;
    SplitTwoPieces(code, ' ', session);
    SplitConcat(year, ' ', rest);
    JoinSplit(year, ' ');
    var pieces := Split(year, ' ') + [code, session];
    assert pieces[..|pieces| - 2] == Split(year, ' ');
  }

  /** When the year part holds no space, the title splits into exactly its three parts. */
  lemma TitleParts(selection: Maybe<Selection>)
    requires var s := selection.Otherwise(DefaultSelection); ' ' !in YearPart(s.metai)
    ensures
      var s := selection.Otherwise(DefaultSelection);
      Split(Title(selection), ' ') == [YearPart(s.metai), LevelCode(s.level), SessionPart(s.sesija)]
  {
    var s := selection.Otherwise(DefaultSelection);
    var year := YearPart(s.metai);
    var code := LevelCode(s.level);
    var session := SessionPart(s.sesija);
    assert Title(selection) == year + [' '] + (code + [' '] + session);
    SplitThreePieces(year, ' ', code, session);
  }

  /** Without a selection, or with every field unset, the title is `" MBE "`. */
  lemma TitleOfNothing()
    ensures Title(Undefined) == " MBE "
    ensures Title(Defined(DefaultSelection)) == " MBE "
    ensures Title(Defined(Selection(Undefined, Undefined, Undefined))) == " MBE "
  {
    assert Split("", '-') == [""];
    assert Split("", ' ') == [""];
  }

  /** A date such as `2023-01-01` shows its year, and a session such as
      `Pagrindinė sesija` its first word. */
  lemma TitleOfDateAndSession(year: string, date: string, level: Maybe<string>, word: string, rest: string)
    requires '-' !in year && ' ' !in word
    ensures Title(Defined(Selection(Defined(year + "-" + date), level, Defined(word + " " + rest))))
      == year + " " + LevelCode(level) + " " + word
  {
    PrefixBeforeUnique(year + "-" + date, '-', year);
    PrefixBeforeUnique(word + " " + rest, ' ', word);
  }
}
