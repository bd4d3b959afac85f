/**
 * The widget-id helpers of src/ynab_updater/modals/utils.py: a base id
 * (a budget or account id) is tagged with a prefix to name a widget, and
 * recovered from the widget's id.
 */
module WidgetIds {
  import opened Wrappers

  /** `_generate_widget_id`: the prefix, a hyphen, the base id. */
  function GenerateWidgetId(prefix: string, baseId: string): (id: string)
    ensures |id| == |prefix| + 1 + |baseId|
    ensures id[..|prefix| + 1] == prefix + "-" && id[|prefix| + 1..] == baseId
  {
    prefix + "-" + baseId
  }

  predicate StartsWith(s: string, p: string)
  {
    |p| <= |s| && s[..|p|] == p
  }

  /**
   * `_extract_base_id`: the text after `prefix-` when the widget id is
   * present, non-empty and starts with it; nothing otherwise.
   */
  function ExtractBaseId(prefix: string, widgetId: Option<string>): (r: Option<string>)
    ensures r.Some? <==> widgetId.Some? && widgetId.value != [] && StartsWith(widgetId.value, prefix + "-")
    ensures r.Some? ==> prefix + "-" + r.value == widgetId.value
  {
    var expected := prefix + "-";
    if widgetId.Some? && widgetId.value != [] && StartsWith(widgetId.value, expected) then
      assert expected + widgetId.value[|expected|..] == widgetId.value;
      Some(widgetId.value[|expected|..])
    else
      None
  }

  /** Every base id, the empty one too, comes back out of the widget id made from it. */
  lemma ExtractGenerated(prefix: string, baseId: string)
    ensures ExtractBaseId(prefix, Some(GenerateWidgetId(prefix, baseId))) == Some(baseId)
  {
    var id := GenerateWidgetId(prefix, baseId);
    assert id[..|prefix| + 1] == prefix + "-";
  }

  /** Every id that yields a base id is the widget id generated from it. */
  lemma GenerateExtracted(prefix: string, widgetId: Option<string>)
    requires ExtractBaseId(prefix, widgetId).Some?
    ensures widgetId == Some(GenerateWidgetId(prefix, ExtractBaseId(prefix, widgetId).value))
  {
  }

  /** Widget ids of distinct base ids under one prefix are distinct. */
  lemma GenerateInjective(prefix: string, a: string, b: string)
    requires GenerateWidgetId(prefix, a) == GenerateWidgetId(prefix, b)
    ensures a == b
  {
    ExtractGenerated(prefix, a);
    ExtractGenerated(prefix, b);
  }
}
