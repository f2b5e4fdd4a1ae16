/**
 * A news item as it flows through the pipeline: a search result with its
 * title, source, link and publication time, later annotated by the
 * classifier with a class label and a category.
 */
module News {
  import opened Wrappers
  import opened PyJson

  /**
   * The item's fields. `cls` and `category` are None until the classifier
   * has annotated the item; `pubDate` is a time in seconds.
   */
  datatype NewsItem = NewsItem(
    title: string,
    source: string,
    url: string,
    pubDate: int,
    cls: Option<string>,
    category: Option<Json>)
}
