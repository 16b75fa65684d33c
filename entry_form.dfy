/** The checks `create_entry` and `edit_entry` run on a submitted entry form
    before anything is stored. */
module EntryForm {
  import opened Text
  import opened Dates

  /** The submitted form fields by name (one value per name). */
  type Form = map<string, string>

  /** `request.form.get(key, "")`: an absent field reads as the empty text. */
  function FormGet(form: Form, key: string): string {
    if key in form then form[key] else ""
  }

  /** Why a submission is refused. */
  datatype FormError = MissingField | InvalidDate

  /** A refused submission, or the normalised fields of an accepted one. */
  datatype Checked =
    | Accepted(title: string, date: Date, content: string)
    | Refused(error: FormError)

  /** `request.form.get(key, "").strip()`, as the handler reads the title
      and the content: no whitespace is left at either end. */
  function StrippedField(form: Form, key: string): (t: string)
    ensures Trimmed(t)
  {
    StripTrimmed(FormGet(form, key));
    Strip(FormGet(form, key))
  }

  /** The fields an accepted submission carries: a title and a content that
      are non-empty with no whitespace at either end, and a real calendar date. */
  ghost predicate WellFormed(title: string, date: Date, content: string) {
    title != [] && Trimmed(title) && content != [] && Trimmed(content) && ValidDate(date)
  }

  /** The required-field check, then the date parse. */
  function CheckForm(form: Form): (r: Checked)
    ensures r.Accepted? ==> ParseDate(FormGet(form, "date")) == Some(r.date)
  {
    var title := StrippedField(form, "title");
    var dateText := FormGet(form, "date");
    var content := StrippedField(form, "content");
    if title == [] || dateText == [] || content == [] then Refused(MissingField)
    else
      match ParseDate(dateText)
      case None => Refused(InvalidDate)
      case Some(d) => Accepted(title, d, content)
  }

  /** An accepted submission carries a non-empty trimmed title and content
      and a real calendar date. */
  lemma AcceptedWellFormed(form: Form)
    requires CheckForm(form).Accepted?
    ensures WellFormed(CheckForm(form).title, CheckForm(form).date, CheckForm(form).content)
  {
    var r := CheckForm(form);
    assert r.title == StrippedField(form, "title") && r.content == StrippedField(form, "content");
    assert ParseDate(FormGet(form, "date")) == Some(r.date);
  }

  /** A field is missing when the title or the content is all whitespace, or
      the date text is empty; that is checked first, whatever the date says. */
  lemma MissingFieldFirst(form: Form)
    ensures CheckForm(form) == Refused(MissingField) <==>
      Blank(FormGet(form, "title")) || FormGet(form, "date") == [] || Blank(FormGet(form, "content"))
  {
    StripEmptyIffBlank(FormGet(form, "title"));
    StripEmptyIffBlank(FormGet(form, "content"));
  }

  /** An absent field is a missing field. */
  lemma AbsentFieldIsMissing(form: Form)
    requires "title" !in form || "date" !in form || "content" !in form
    ensures CheckForm(form) == Refused(MissingField)
  {
  }

  /** The date text is not stripped: a date of only whitespace passes the
      required check and is refused as an invalid date. */
  lemma BlankDateIsInvalid(form: Form)
    requires !Blank(FormGet(form, "title")) && !Blank(FormGet(form, "content"))
    requires FormGet(form, "date") != [] && Blank(FormGet(form, "date"))
    ensures CheckForm(form) == Refused(InvalidDate)
  {
    MissingFieldFirst(form);
    BlankIsNoDate(FormGet(form, "date"));
  }

  /** Whitespace spells no date: accepted date text starts with a digit. */
  lemma BlankIsNoDate(s: string)
    requires s != [] && Blank(s)
    ensures ParseDate(s) == None
  {
    if ParseDate(s).Some? {
      ParseDateNeedsYearAndDash(s);
    }
  }

  /** With all fields present, the submission is refused as an invalid date
      exactly when the date text does not spell a valid date. */
  lemma InvalidDateIff(form: Form)
    requires !Blank(FormGet(form, "title")) && FormGet(form, "date") != [] && !Blank(FormGet(form, "content"))
    ensures CheckForm(form) == Refused(InvalidDate) <==>
      forall d: Date :: !(ValidDate(d) && Spells(FormGet(form, "date"), d))
  {
    var dt := FormGet(form, "date");
    MissingFieldFirst(form);
    if ParseDate(dt).Some? {
      ParseDateIff(dt, ParseDate(dt).value);
    } else {
      forall d: Date ensures !(ValidDate(d) && Spells(dt, d)) {
        ParseDateIff(dt, d);
      }
    }
  }

  /** An accepted submission carries the stripped title and content and the
      date its text spells; every such form is accepted. */
  lemma AcceptedIff(form: Form, title: string, date: Date, content: string)
    ensures CheckForm(form) == Accepted(title, date, content) <==>
      && title == Strip(FormGet(form, "title")) && title != []
      && content == Strip(FormGet(form, "content")) && content != []
      && ValidDate(date) && Spells(FormGet(form, "date"), date)
  {
    var dt := FormGet(form, "date");
    ParseDateIff(dt, date);
    if CheckForm(form) == Accepted(title, date, content) {
      assert ParseDate(dt) == Some(date);
    }
    if && title == Strip(FormGet(form, "title")) && title != []
       && content == Strip(FormGet(form, "content")) && content != []
       && ValidDate(date) && Spells(dt, date)
    {
      assert ParseDate(dt) == Some(date);
    }
  }

  /** The new-entry page pre-fills the date with today's date; submitting
      that default unchanged with a title and a content creates an entry for
      today. */
  lemma DefaultDateAccepted(form: Form, today: Date)
    requires ValidDate(today) && FormGet(form, "date") == FormatDate(today)
    requires !Blank(FormGet(form, "title")) && !Blank(FormGet(form, "content"))
    ensures CheckForm(form) == Accepted(Strip(FormGet(form, "title")), today, Strip(FormGet(form, "content")))
  {
    MissingFieldFirst(form);
    FormatParseRoundTrip(today);
  }

  /** An empty title is a missing field. */
  lemma EmptyTitleIsMissing()
    ensures CheckForm(map["title" := "", "date" := "2024-06-15", "content" := "x"]) == Refused(MissingField)
  {
    var f := map["title" := "", "date" := "2024-06-15", "content" := "x"];
    assert FormGet(f, "title") == "";
  }

  /** A date written day first is an invalid date. */
  lemma DayFirstDateIsInvalid(form: Form)
    requires !Blank(FormGet(form, "title")) && !Blank(FormGet(form, "content"))
    requires FormGet(form, "date") == "15-06-2024"
    ensures CheckForm(form) == Refused(InvalidDate)
  {
    MissingFieldFirst(form);
    ParseDateRefusesLayouts();
  }
}
