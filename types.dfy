/** The records the application keeps. Dates and timestamps are integers
    (milliseconds); an optional field that may be missing is an `Option`. */
module Types {
  import opened Wrappers

  datatype Sender = User | Bot

  datatype ChatMessage = ChatMessage(id: string, text: string, sender: Sender)

  datatype AppState = Idle | ProcessingPdf | Ready | Generating | Error

  datatype Theme = Light | Dark | System

  datatype Comment = Comment(id: string, author: string, text: string, timestamp: int)

  /** A saved article. `comments` may be missing, which readers treat as
      the empty list. */
  datatype LibraryArticle = LibraryArticle(
    id: string,
    fileName: string,
    fileDataUrl: string,
    pdfText: string,
    tags: seq<string>,
    rating: int,
    notes: string,
    dateAdded: int,
    reminderDate: Option<int>,
    reminderNote: Option<string>,
    comments: Option<seq<Comment>>)

  /** A node or an edge; `caption` is the field the source calls `label`. */
  datatype GraphNode = GraphNode(id: int, caption: string, title: Option<string>)

  datatype GraphEdge = GraphEdge(from: int, to: int, caption: string)

  datatype GraphData = GraphData(nodes: seq<GraphNode>, edges: seq<GraphEdge>)

  datatype ComparisonArticle = ComparisonArticle(fileName: string, pdfText: string)

  /** An uploaded file: its name and its size in bytes. */
  datatype File = File(name: string, size: nat)

  /** JavaScript truthiness of a string that may be `null`: present and not
      empty. */
  predicate Truthy(s: Option<string>) {
    s.Some? && s.value != []
  }

  /** The ids of a list are pairwise different. */
  predicate UniqueIds(xs: seq<LibraryArticle>) {
    forall i, j :: 0 <= i < j < |xs| ==> xs[i].id != xs[j].id
  }

  predicate HasId(xs: seq<LibraryArticle>, id: string) {
    exists k :: 0 <= k < |xs| && xs[k].id == id
  }
}
