/** Host records (one per node of the cluster) and the namespace they live in. */
module HostTypes {
  import opened Registry

  /** The four spec fields of a Host record. */
  datatype HostSpec = HostSpec(address: string, status: string, info: string, token: string)

  /** A Host record as read from the store or delivered by the change feed. */
  type Host = Object<HostSpec>

  /** Every Host record lives in this namespace. */
  const HostNamespace: string := "default"

  function HostKey(name: string): Key
  {
    Key(HostNamespace, name)
  }
}
