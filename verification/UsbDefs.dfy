/** Constants that several parts of the stack share. */
module UsbDefs {
  const REQUEST_BUFFER_LEN: int := 512  // CONFIG_USBDEV_REQUEST_BUFFER_LEN and CONFIG_USBHOST_REQUEST_BUFFER_LEN

  // -USB_ERR_NOMEM and so on
  const NOMEM: int := -1
  const INVAL: int := -2
  const NODEV: int := -3
  const TIMEOUT: int := -14
}
