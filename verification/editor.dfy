/** The question form of the editor: building the record that the submit
    handler saves, the values `editQuestion` loads into the form, and the
    state the form keeps between openings (the edit index and the source
    of the image preview). */
module Editor {
  import opened Text
  import opened Questions
  import QuestionList

  /** The text fields of the question form. */
  datatype Form = Form(
    text: string,
    correct: string,
    wrong1: string,
    wrong2: string,
    wrong3: string,
    hint: string,
    trivia: string)

  /** The form after `reset()`: every field empty. */
  const BlankForm := Form("", "", "", "", "", "", "")

  /** The submit handler's record: the correct answer first, then the three
      wrong ones; the preview image is kept only when it is an embedded
      `data:image` URL and replaced by the empty string otherwise. */
  function BuildQuestion(f: Form, previewSrc: string): (q: Question)
    ensures q.text == f.text && q.hint == f.hint && q.trivia == f.trivia
    ensures |q.answers| == 4 && q.answers[0] == f.correct
    ensures q.answers[1] == f.wrong1 && q.answers[2] == f.wrong2 && q.answers[3] == f.wrong3
    ensures StartsWith(previewSrc, DataImagePrefix) ==> q.image == previewSrc
    ensures !StartsWith(previewSrc, DataImagePrefix) ==> q.image == []
    ensures SavableImage(q.image)
  {
    var image := if StartsWith(previewSrc, DataImagePrefix) then previewSrc else [];
    Question(f.text, [f.correct, f.wrong1, f.wrong2, f.wrong3], image, f.hint, f.trivia)
  }

  /** The text an answer input receives in `editQuestion`; assigning a
      missing array element writes the string "undefined". */
  function AnswerField(q: Question, k: nat): string {
    if k < |q.answers| then q.answers[k] else "undefined"
  }

  /** The form `editQuestion` fills from a stored question. */
  function FormOf(q: Question): (f: Form)
    ensures f.text == q.text && f.hint == q.hint && f.trivia == q.trivia
    ensures |q.answers| == 4 ==>
      [f.correct, f.wrong1, f.wrong2, f.wrong3] == q.answers
  {
    Form(q.text, AnswerField(q, 0), AnswerField(q, 1), AnswerField(q, 2), AnswerField(q, 3), q.hint, q.trivia)
  }

  /** Saving a form and loading the saved question back into the form
      gives the same fields. */
  lemma FormRoundTrip(f: Form, previewSrc: string)
    ensures FormOf(BuildQuestion(f, previewSrc)) == f
  {
  }

  /** Loading a stored question into the form and saving it with its own
      image gives the question back, provided it has four answers and an
      image the editor can save. */
  lemma QuestionRoundTrip(q: Question)
    requires |q.answers| == 4 && SavableImage(q.image)
    ensures BuildQuestion(FormOf(q), q.image) == q
  {
    assert q.answers == [q.answers[0], q.answers[1], q.answers[2], q.answers[3]];
  }

  /** What the editor screen holds: the list, the index being edited (-1
      for a new question), the form, the `src` of the preview image, and
      whether the question dialog is open. */
  datatype Session = Session(
    quiz: seq<Question>,
    editIndex: int,
    form: Form,
    preview: string,
    dialogOpen: bool)

  /** The edit index names a slot of the list (or none) whenever the
      dialog is open. */
  predicate Consistent(s: Session) {
    s.dialogOpen ==> s.editIndex < |s.quiz|
  }

  /** The "add question" button exactly as written: it blanks the form but
      leaves the preview's `src` as the last dialog left it. */
  function OpenAddAsWritten(s: Session): (r: Session)
    ensures r.dialogOpen && r.editIndex == -1 && r.form == BlankForm
    ensures r.quiz == s.quiz && r.preview == s.preview
  {
    Session(s.quiz, -1, BlankForm, s.preview, true)
  }

  /** `editQuestion(i)` exactly as written: it sets the preview's `src`
      only when the question has an image, and otherwise leaves the last
      one in place. */
  function OpenEditAsWritten(s: Session, i: nat): (r: Session)
    requires i < |s.quiz|
    ensures r.dialogOpen && r.editIndex == i && r.form == FormOf(s.quiz[i])
    ensures r.quiz == s.quiz
    ensures s.quiz[i].image != [] ==> r.preview == s.quiz[i].image
    ensures s.quiz[i].image == [] ==> r.preview == s.preview
  {
    var q := s.quiz[i];
    Session(s.quiz, i, FormOf(q), if |q.image| > 0 then q.image else s.preview, true)
  }

  /** The "add question" button as intended: the preview starts empty. */
  function OpenAdd(s: Session): (r: Session)
    ensures r.dialogOpen && r.editIndex == -1 && r.form == BlankForm
    ensures r.quiz == s.quiz && !StartsWith(r.preview, DataImagePrefix)
  {
    Session(s.quiz, -1, BlankForm, [], true)
  }

  /** `editQuestion(i)` as intended: the preview shows the question's own
      image, or nothing. */
  function OpenEdit(s: Session, i: nat): (r: Session)
    requires i < |s.quiz|
    ensures r.dialogOpen && r.editIndex == i && r.form == FormOf(s.quiz[i])
    ensures r.quiz == s.quiz && r.preview == s.quiz[i].image
  {
    Session(s.quiz, i, FormOf(s.quiz[i]), s.quiz[i].image, true)
  }

  /** The close button (or a click beside the dialog). */
  function Close(s: Session): (r: Session)
    ensures !r.dialogOpen && r.quiz == s.quiz && r.preview == s.preview
  {
    s.(dialogOpen := false)
  }

  /** The form's submit handler: build the record from the form and the
      preview, upsert it into the list, close the dialog. */
  function Submit(s: Session): (r: Session)
    requires s.dialogOpen && Consistent(s)
    ensures !r.dialogOpen && Consistent(r)
    ensures r.quiz == QuestionList.Save(s.quiz, s.editIndex, BuildQuestion(s.form, s.preview))
    ensures r.preview == s.preview && r.form == s.form && r.editIndex == s.editIndex
  {
    s.(quiz := QuestionList.Save(s.quiz, s.editIndex, BuildQuestion(s.form, s.preview)),
       dialogOpen := false)
  }

  /** As written, opening a question without an image right after one
      with an image, and saving it unchanged, gives it the other
      question's image. */
  lemma StaleImageAsWritten()
    ensures
      var withImage := Question("A?", ["a", "b", "c", "d"], "data:image/png;base64,AA", "", "");
      var without := Question("B?", ["e", "f", "g", "h"], "", "", "");
      var s := Session([withImage, without], -1, BlankForm, "", false);
      var r := Submit(OpenEditAsWritten(Close(OpenEditAsWritten(s, 0)), 1));
      && r.quiz[1].image == withImage.image
      && r.quiz[1] != without
  {
    var withImage := Question("A?", ["a", "b", "c", "d"], "data:image/png;base64,AA", "", "");
    assert StartsWith(withImage.image, DataImagePrefix) by {
      assert withImage.image[..|DataImagePrefix|] == DataImagePrefix;
    }
  }

  /** As written, a new question saved without choosing an image takes the
      image of the question edited before it. */
  lemma StaleImageOnAddAsWritten(f: Form)
    ensures
      var withImage := Question("A?", ["a", "b", "c", "d"], "data:image/png;base64,AA", "", "");
      var s := Session([withImage], -1, BlankForm, "", false);
      var adding := OpenAddAsWritten(Close(OpenEditAsWritten(s, 0)));
      var r := Submit(adding.(form := f));
      r.quiz[1].image == withImage.image
  {
    var withImage := Question("A?", ["a", "b", "c", "d"], "data:image/png;base64,AA", "", "");
    assert StartsWith(withImage.image, DataImagePrefix) by {
      assert withImage.image[..|DataImagePrefix|] == DataImagePrefix;
    }
  }

  /** With the preview reset on opening, saving an opened question without
      changing anything leaves the whole list as it was, whatever dialog
      came before. */
  lemma EditUnchangedKeepsList(s: Session, i: nat)
    requires i < |s.quiz| && |s.quiz[i].answers| == 4 && SavableImage(s.quiz[i].image)
    ensures Submit(OpenEdit(s, i)).quiz == s.quiz
  {
    QuestionRoundTrip(s.quiz[i]);
    QuestionList.SaveUnchanged(s.quiz, i);
  }

  /** With the preview reset on opening, a new question saved without
      choosing an image has none, and is appended after the others. */
  lemma AddWithoutImage(s: Session, f: Form)
    ensures var r := Submit(OpenAdd(s).(form := f));
      && |r.quiz| == |s.quiz| + 1 && r.quiz[..|s.quiz|] == s.quiz
      && r.quiz[|s.quiz|].image == [] && r.quiz[|s.quiz|].answers[0] == f.correct
  {
  }
}
