/** The records of the catalog store: categories and brands as the database
    holds them. Cloudinary images are reduced to an optional asset, and the
    auto_now_add / auto_now timestamps to clock readings. */
module Models {

  datatype Option<T> = None | Some(value: T)

  /** Primary key of a stored row. */
  type Id = nat

  /** An uploaded Cloudinary image: its public id and the delivery URL that
      `.url` yields. */
  datatype Asset = Asset(publicId: string, url: string)

  /** A row of the Category table. `parent` is the nullable self-reference
      whose deletion cascades. */
  datatype Category = Category(
    name: string,
    slug: string,
    parent: Option<Id>,
    image: Option<Asset>,
    icon: string,
    metaTitle: string,
    metaDescription: string,
    isActive: bool,
    sortOrder: nat,
    createdAt: int,
    updatedAt: int)

  /** A row of the Brand table. */
  datatype Brand = Brand(
    name: string,
    slug: string,
    description: string,
    websiteUrl: Option<string>,
    logo: Option<Asset>,
    metaTitle: string,
    metaDescription: string,
    isActive: bool,
    isFeatured: bool,
    createdAt: int,
    updatedAt: int)
}
