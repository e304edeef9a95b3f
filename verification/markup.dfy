/** The tag vocabulary of the quiz documents. Tags are matched literally and
    case-sensitively; there is no nesting and no escaping. */
module Markup {

  const QuestionTag := "<question>"
  const VariantTag := "<variant>"
  const RightTag := "<variantright>"

  /** What the extractor's lookaheads search for: the common prefix of both
      option tags, so `<variantright>` also ends a field. */
  const VariantPrefix := "<variant"

  const VariantClose := "</variant>"
  const RightClose := "</variantright>"
  const QuestionClose := "</question>"
}
