/** The record the client passes around: a dict with a `'text'` and a `'tags'` entry. */
module Tweets {

  /** A stored example (`rag_data` entry) and also the generator's parsed result. */
  datatype Tweet = Tweet(text: string, tags: seq<string>)
}
