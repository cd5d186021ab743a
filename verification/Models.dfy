/** database/{models,detector}.go: the records the worker and the updater pass around. */
module Models {

  datatype DetectorType = NamespaceDetector | FeatureDetector

  datatype Detector = Detector(name: string, version: string, dtype: DetectorType)

  datatype Namespace = Namespace(name: string, format: string)

  datatype Feature = Feature(
    name: string, version: string, sourceName: string, sourceVersion: string, format: string)

  datatype LayerNamespace = LayerNamespace(namespace: Namespace, foundBy: Detector)

  datatype LayerFeature = LayerFeature(feature: Feature, foundBy: Detector)

  datatype Layer = Layer(
    hash: string, scannedBy: seq<Detector>, namespaces: seq<LayerNamespace>, features: seq<LayerFeature>)

  datatype AncestryFeature = AncestryFeature(
    feature: Feature, namespace: Namespace, namespaceBy: Detector, featureBy: Detector)

  datatype AncestryLayer = AncestryLayer(hash: string, features: seq<AncestryFeature>)

  /** A severity is text in the code; `Other` is any text that is not a known severity. */
  datatype Severity = Unknown | Negligible | Low | Medium | High | Critical | Defcon1 | Other(text: string)

  datatype AffectedFeature = AffectedFeature(
    affectedType: string, namespace: Namespace, featureName: string, fixedInVersion: string, affectedVersion: string)

  /** A vulnerability with its affected features. */
  datatype Vulnerability = Vulnerability(
    name: string, namespace: Namespace, description: string, link: string, severity: Severity, metadata: string,
    affected: seq<AffectedFeature>)

  datatype VulnerabilityID = VulnerabilityID(name: string, namespace: string)

  function IdOf(v: Vulnerability): VulnerabilityID {
    VulnerabilityID(v.name, v.namespace.name)
  }
}
