/** The records the store keeps (internal/store/store.go:17-87). Times are plain numbers. */
module Entities {

  const SOURCE_DOCKER := "docker"
  const SOURCE_NETWORK := "network"
  const SOURCE_MANUAL := "manual"
  const ICON_FILE := "file"

  datatype Service = Service(
    id: string,
    name: string,
    subdomain: string,
    target: string,
    icon: string,
    category: string,
    order: int,
    source: string,
    containerID: string,
    containerName: string,
    dnsRecordID: string,
    tunnelRouteID: string,
    skipHealth: bool,
    directOnly: bool,
    createdAt: int)

  datatype Bookmark = Bookmark(id: string, name: string, url: string, icon: string, category: string, order: int)

  datatype Ignored = Ignored(id: string, ip: string, port: int, title: string, ignoredAt: int)

  datatype Discovered = Discovered(
    id: string,
    ip: string,
    port: int,
    title: string,
    icon: string,
    serviceName: string,
    confidence: int,  // the bits of a float32
    source: string,
    containerName: string,
    containerID: string,
    suggestedSubdomain: string,
    discoveredAt: int)
}
