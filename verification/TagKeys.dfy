/** The tag and label keys the migrator knows, and small operations on tag sets. */
module TagKeys {
  type Tags = map<string, string>

  const SERVICE := "kuma.io/service"
  const SERVICE_NAME := "k8s.kuma.io/service-name"
  const NAMESPACE := "k8s.kuma.io/namespace"
  const ZONE := "kuma.io/zone"
  const MESH := "kuma.io/mesh"
  const ORIGIN := "kuma.io/origin"
  const ENV := "kuma.io/env"
  const DISPLAY_NAME := "kuma.io/display-name"
  const ROLE := "kuma.io/policy-role"
  const PROTOCOL := "kuma.io/protocol"
  const GATEWAY := "kuma.io/gateway"
  const PROXY_TYPE := "kuma.io/proxy-type"
  const APP := "app"

  /** tags[key], the zero value when it is missing. */
  function TagOr(tags: Tags, key: string): string {
    if key in tags then tags[key] else ""
  }

  predicate Has(m: Tags, k: string, v: string) {
    k in m && m[k] == v
  }

  /** Every key of less is in more, with the same value. */
  ghost predicate Extends(less: Tags, more: Tags) {
    forall k :: k in less ==> Has(more, k, less[k])
  }

  /** A label selector matches labels that extend it. */
  ghost predicate LabelsMatch(selector: Tags, labels: Tags) {
    Extends(selector, labels)
  }

  function Put(m: Tags, key: string, value: string): Tags {
    if value == "" then m else m[key := value]
  }
}
