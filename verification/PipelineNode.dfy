/** A pipeline node as the preview engine sees it (PreviewNodeView, libs/pipeline-expression/preview.go). */
module PipelineNode {
  import opened IdOrder

  /** The fields of the node's JSON configuration that the transforms read, already decoded. */
  datatype Config = Config(columns: seq<string>, castTarget: string, predicate_: string, how: string, on: seq<string>)

  datatype Node = Node(id: Id, kind: string, config: Config, dependsOn: seq<Id>)

  datatype PreviewError = NodeNotFound(id: Id) | Cycle(id: Id) | SeedLoader(id: Id) | Transform(id: Id)

  ghost predicate UniqueIds(nodes: seq<Node>) {
    forall i, j :: 0 <= i < j < |nodes| ==> nodes[i].id != nodes[j].id
  }
}
