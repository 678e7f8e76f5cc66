/** Choosing what goes into the JSON document (exporter_json.go). */
module JsonExport {
  import opened Metrics

  /**
   * exporter_json.go, ExportJSON, up to the marshalling: each list whose
   * export flag is off is cleared, in turn, on a copy of the data. The
   * caller's value is untouched because it is passed by value.
   */
  method SelectForJson(data: DataToExport, itemsToExport: ItemsToExport) returns (selected: DataToExport)
    ensures selected.users == (if itemsToExport.users then data.users else [])
    ensures selected.posts == (if itemsToExport.topicComments then data.posts else [])
    ensures selected.edits == (if itemsToExport.topicEdits then data.edits else [])
  {
    selected := data;
    if !itemsToExport.users {
      selected := selected.(users := []);
    }
    if !itemsToExport.topicComments {
      selected := selected.(posts := []);
    }
    if !itemsToExport.topicEdits {
      selected := selected.(edits := []);
    }
  }
}
