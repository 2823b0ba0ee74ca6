/** The subject codes of the contact form's select box and the labels shown
    for them in the outgoing messages (getSubjectText). */
module Subjects {

  /** The lookup object of getSubjectText. */
  const Labels: map<string, string> := map[
    "order" := "Place an Order",
    "catering" := "Bulk Catering Inquiry",
    "feedback" := "Feedback",
    "complaint" := "Complaint",
    "other" := "Other"
  ]

  /** `subjects[value] || value`: the label of a known code; a missing entry
      (undefined) or an empty label (falsy) falls back to the code itself. */
  function SubjectText(code: string): (shown: string)
    ensures code in Labels ==> shown == Labels[code]
    ensures code !in Labels ==> shown == code
    ensures shown == [] <==> code == []
  {
    if code in Labels && Labels[code] != [] then Labels[code] else code
  }

  /** The five codes of the form and what they are shown as; any other code,
      such as "xyz", is shown as it is. */
  lemma SubjectTextTable()
    ensures SubjectText("order") == "Place an Order"
    ensures SubjectText("catering") == "Bulk Catering Inquiry"
    ensures SubjectText("feedback") == "Feedback"
    ensures SubjectText("complaint") == "Complaint"
    ensures SubjectText("other") == "Other"
    ensures SubjectText("xyz") == "xyz"
  {
  }
}
