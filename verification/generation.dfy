/** The hosted text-generation model, seen only through its boundary: a
    prompt goes in, a reply text or a failure comes out. */
module Generation {

  /** The three kinds of prompt the program sends.  Their wording is fixed
      natural-language text around the fields kept here. */
  datatype Prompt =
    | ChunkPrompt(chunk: string, title: string)       // notes template filled with one chunk
    | MergePrompt(combined: string, title: string)    // "combine the partial summaries" template
    | TitlePrompt(transcript: string)                  // "generate a title" template

  /** `model.generate_content(prompt).text`, or the exception it raised. */
  datatype Response = Reply(text: string) | Failure(reason: string)

  /** The model, as a function of the prompt. */
  type Oracle = Prompt -> Response
}
