/** Catalog records: a repository description plus a status, kept per namespace. */
module CatalogTypes {

  datatype CatalogSpec = CatalogSpec(name: string, url: string, username: string, password: string, description: string)

  datatype Catalog = Catalog(spec: CatalogSpec, status: string)
}
