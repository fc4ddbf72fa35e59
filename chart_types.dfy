/**
  The chart records the helm chart webview receives from the extension
  host. Only the fields the search view and the list item read are kept.
 */
module ChartTypes {
  import opened Wrappers

  /** The annotation naming a chart's provider type ("partner", "redhat", ...). */
  const ProviderTypeAnnotation: string := "charts.openshift.io/providerType"

  /** The annotation naming a chart's provider. */
  const ProviderAnnotation: string := "charts.openshift.io/provider"

  datatype Maintainer = Maintainer(name: string)

  /** One published version of a chart. A missing `maintainers` list is the empty one. */
  datatype ChartVersion = ChartVersion(
    name: string,
    version: string,
    description: Option<string>,
    annotations: map<string, string>,
    maintainers: seq<Maintainer>)

  /**
    A chart as the search view lists it. `latest` is `chartVersions[0]`, the
    only version the view reads.
   */
  datatype Chart = Chart(chartName: string, displayName: string, latest: ChartVersion)

  /** `annotations[key]`, `None` standing for `undefined`. */
  function Annotation(v: ChartVersion, key: string): Option<string>
  {
    if key in v.annotations then Some(v.annotations[key]) else None
  }

  /** JavaScript truthiness of `annotations[key]`: present and not the empty string. */
  predicate AnnotationTruthy(v: ChartVersion, key: string)
  {
    key in v.annotations && v.annotations[key] != ""
  }
}
