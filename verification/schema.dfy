/** The Kubernetes API coordinates shared by the rest of the model: a group
    and version, and a kind or resource within them (k8s.io/apimachinery
    schema types). */
module Schema {
  datatype GroupVersion = GroupVersion(group: string, version: string)
  datatype GVK = GVK(group: string, version: string, kind: string)
  datatype GVR = GVR(group: string, version: string, resource: string)
}
