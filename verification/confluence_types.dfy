/** The record shapes the synchronizer reads and writes: the wiki page as sent
    and fetched (src/types/ConfluencePage.ts), the per-document entry of the
    configuration, the part of the configuration the core uses
    (src/types/BaseConfig.ts) and a remote attachment listing entry. */
module ConfluenceTypes {
  import opened Wrappers

  /** A resolved space; its shape is passed through unchanged. */
  datatype Space = Space(key: string)

  /** `body.storage`: the markup and its representation name. */
  datatype Storage = Storage(value: string, representation: string)

  /** A wiki page. `version` is `version?.number`, a decimal string;
      `ancestors` is `ancestors?` as a list of page ids. */
  datatype ConfluencePage = ConfluencePage(
    title: string,
    pageType: string,
    body: Storage,
    version: Option<string>,
    ancestors: Option<seq<string>>,
    space: Space)

  /** One configured document. `file` is its path; the optional fields are
      `undefined` when absent. */
  datatype Page = Page(
    file: string,
    title: Option<string>,
    pageId: Option<string>,
    parentId: Option<string>)

  /** The configuration fields the core consults. */
  datatype Config = Config(prefix: string, spaceKey: Option<string>)

  /** An entry of the remote attachment listing: id, title and
      `extensions.fileSize`. */
  datatype RemoteAttachment = RemoteAttachment(id: string, title: string, fileSize: int)

  /** JavaScript truthiness of an optional string: present and non-empty. */
  predicate Truthy(o: Option<string>) {
    o.Some? && o.value != ""
  }
}
