/** The question record shared by the editor and the quiz runner. */
module Questions {
  import opened Text

  /** One quiz question as stored in the quiz file. In storage order
      `answers[0]` is the correct answer and the others are wrong ones.
      The editor only saves a `data:image` URL or the empty string as
      `image`, but a loaded file can hold any image string. `hint` and
      `trivia` may be empty. */
  datatype Question = Question(
    text: string,
    answers: seq<string>,
    image: string,
    hint: string,
    trivia: string)

  /** The prefix that marks an embedded image the editor keeps. */
  const DataImagePrefix: string := "data:image"

  /** An image the editor can save: none at all, or an embedded image. */
  predicate SavableImage(image: string) {
    image == [] || StartsWith(image, DataImagePrefix)
  }
}
